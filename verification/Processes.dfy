/** Starting application images one after the other, each in an address space of its own
    (kernel-image/src/loader.rs): whatever is started, and however far each start gets, no
    process reaches a page or a page table of another. */
module Processes {
  import opened Division
  import opened LittleEndian
  import opened PageEncoding
  import opened Addressing
  import opened FramePool
  import opened PageTables
  import opened Mapping
  import opened Ranges
  import opened Boundaries
  import opened Demand
  import opened Loader
  import opened Options

  const KERNEL_PAGES: nat := 0x4_0000
  const APP_REGION: nat := 0x1_0000_0000
  const STACK_OFFSET: nat := 0x10_0000
  const HEAP_OFFSET: nat := 0x20_0000
  const HEAP_PAGES: nat := 64

  /** The kernel's range is mapped into every process for the supervisor only. */
  const KERNEL_RWX := Permissions(true, true, true, false, false)

  datatype Process = Process(entry: nat, stackTop: nat, heapBase: nat)

  /** The 4 GiB region of an entry point. */
  function AppBase(entry: nat): nat {
    entry - entry % APP_REGION
  }

  /** Everything mapped into the space at `root`: the kernel's range, the segments, a stack of
      one page and a heap. */
  function Fill(E: Encoder, m: Machine, root: nat, image: Image): (Machine, Option<Process>) {
    var k := MapRange(E, m, root, 0, 0, KERNEL_PAGES, KERNEL_RWX);
    if !k.1.Mapped? then (k.0, None)
    else
      var l := LoadAppImage(E, k.0, root, image);
      if !l.1.Loaded? then (l.0, None)
      else
        var base := AppBase(l.1.value);
        var s := MapUserStack(E, l.0, root, base + STACK_OFFSET, 1);
        if !s.1.Loaded? then (s.0, None)
        else
          var h := MapUserStack(E, s.0, root, base + HEAP_OFFSET, HEAP_PAGES);
          (h.0, if h.1.Loaded? then Some(Process(l.1.value, s.1.value, base + HEAP_OFFSET)) else None)
  }

  /** The machine and the roots of the spaces made so far, those of failed starts included:
      nothing is ever given back. */
  datatype World = World(m: Machine, roots: seq<nat>)

  function Start(E: Encoder, w: World, image: Image): World {
    var a := AllocateZeroed(w.m);
    if a.1.Frame? then World(Fill(E, a.0, a.1.index, image).0, w.roots + [a.1.index]) else World(a.0, w.roots)
  }

  function Run(E: Encoder, m: Machine, images: seq<Image>): World {
    if images == [] then World(m, []) else Start(E, Run(E, m, images[..|images| - 1]), images[|images| - 1])
  }

  // ---- one space -----------------------------------------------------------

  /** A space with its tables and the frames of its own pages. */
  datatype View = View(root: nat, tree: Tree, own: set<nat>)

  /** An entry of the kernel's range. */
  ghost predicate Supervisor(E: Encoder, h: Hit) {
    || (exists f: nat :: h.entry == E.encodeLeaf(f, KERNEL_RWX))
    || (exists f: nat :: h.entry == KernelBlock(E, f))
  }

  function KernelBlock(E: Encoder, f: nat): Word {
    E.encodeBlockLeaf(f, KERNEL_RWX, LEVELS - 2)
  }

  ghost predicate HitOk(E: Encoder, h: Hit, own: set<nat>) {
    Supervisor(E, h) || (h.level == LEVELS - 1 && E.entryFrame(h.entry) in own)
  }

  /** Every address is decided by the kernel's range or by a page of the process's own. */
  ghost predicate Confined(E: Encoder, mem: Memory, root: nat, own: set<nat>) {
    forall q: nat :: LookupAt(E, mem, root, q).Some? ==> HitOk(E, LookupAt(E, mem, root, q).value, own)
  }

  ghost predicate Held(E: Encoder, m: Machine, w: View) {
    && SpaceOk(E, m, w.root, w.tree) && Backed(m, w.own) && w.own !! w.tree.Keys
    && Confined(E, m.mem, w.root, w.own)
  }

  ghost function Frames(w: View): set<nat> {
    w.tree.Keys + w.own
  }

  /** From `m` to `m'`: what was allocated stays allocated, and of it only the tables of `w`
      change; what the space gained was free. */
  ghost predicate Steps(m: Machine, w: View, m': Machine, w': View) {
    && w'.root == w.root && w.tree.Keys <= w'.tree.Keys && w.own <= w'.own
    && |m'.mem| == |m.mem| && m'.pool.frameCount == m.pool.frameCount
    && (forall f :: f in Frames(w') && f !in Frames(w) ==> IsFree(m.pool, f))
    && (forall f: nat :: Bit(m.pool.words, f) ==> Bit(m'.pool.words, f))
    && (forall f: nat :: f < |m.mem| && Bit(m.pool.words, f) && f !in w.tree ==> m'.mem[f] == m.mem[f])
  }

  lemma StepsTwice(E: Encoder, a: Machine, wa: View, b: Machine, wb: View, c: Machine, wc: View)
    requires Steps(a, wa, b, wb) && Steps(b, wb, c, wc) && Held(E, b, wb)
    ensures Steps(a, wa, c, wc)
  {
    hide SpaceOk, Confined, Bit;
    forall f: nat | f < |a.mem| && Bit(a.pool.words, f) && f !in wa.tree
      ensures f !in wb.tree
    {
      assert f in wb.tree.Keys ==> f in Frames(wb);
    }
  }

  lemma StepsSame(m: Machine, w: View)
    ensures Steps(m, w, m, w)
  {
  }

  // ---- the kernel's range --------------------------------------------------

  /** One insertion whose entry is fit for the space. */
  lemma InsertStep(E: Encoder, m: Machine, w: View, m': Machine, tree': Tree, v: nat, h: Hit, done: bool)
    requires Held(E, m, w) && SpaceOk(E, m', w.root, tree') && Grown(m, w.tree, m', tree')
    requires OnlyNear(E, m.mem, m'.mem, w.root, v, h, done) && Supervisor(E, h)
    ensures var w' := View(w.root, tree', w.own);
            Held(E, m', w') && Steps(m, w, m', w')
  {
    hide Wf, Lawful, Lookup, LookupAt, Consistent;
    forall f: nat | Bit(m.pool.words, f)
      ensures Bit(m'.pool.words, f)
    {
      PaddingStays(m, m', f);
    }
  }

  /** Bits past the last frame are set in every consistent pool. */
  lemma PaddingStays(m: Machine, m': Machine, f: nat)
    requires MachineOk(m) && MachineOk(m') && m'.pool.frameCount == m.pool.frameCount && Bit(m.pool.words, f)
    requires f < m.pool.frameCount ==> Bit(m'.pool.words, f)
    ensures Bit(m'.pool.words, f)
  {
  }

  lemma MapKernelPage(E: Encoder, m: Machine, w: View, v: nat, f: nat) returns (w': View)
    requires Held(E, m, w) && f < FRAME_LIMIT
    ensures var m' := Map(E, m, w.root, v, f, KERNEL_RWX).0;
            Held(E, m', w') && Steps(m, w, m', w')
  {
    hide Map, Wf, Lookup, OnlyNear, Grown, Consistent, Lawful, Steps, Confined, Missing;
    var h := Hit(E.encodeLeaf(f, KERNEL_RWX), LEVELS - 1);
    assert Supervisor(E, h);
    var tree' := MapCorrect(E, m, w.root, w.tree, v, f, KERNEL_RWX);
    var (m', r) := Map(E, m, w.root, v, f, KERNEL_RWX);
    InsertStep(E, m, w, m', tree', v, h, r.Mapped?);
    w' := View(w.root, tree', w.own);
  }

  lemma MapKernelBlock(E: Encoder, m: Machine, w: View, v: nat, f: nat) returns (w': View)
    requires Held(E, m, w) && f < FRAME_LIMIT
    ensures var m' := MapBlock(E, m, w.root, v, f, KERNEL_RWX).0;
            Held(E, m', w') && Steps(m, w, m', w')
  {
    hide MapBlock, Wf, Lookup, OnlyNear, Grown, Consistent, Lawful, Steps, Confined, Missing, SlotTaken;
    var h := Hit(E.encodeBlockLeaf(f, KERNEL_RWX, LEVELS - 2), LEVELS - 2);
    assert h.entry == KernelBlock(E, f) && Supervisor(E, h);
    var tree' := MapBlockCorrect(E, m, w.root, w.tree, v, f, KERNEL_RWX);
    var (m', r) := MapBlock(E, m, w.root, v, f, KERNEL_RWX);
    InsertStep(E, m, w, m', tree', v, h, r.Mapped?);
    w' := View(w.root, tree', w.own);
  }

  lemma {:induction false} RangeSteps(E: Encoder, m: Machine, w: View, virt: nat, phys: nat, count: nat, i: nat)
    returns (w': View)
    requires Held(E, m, w) && phys / FRAME_SIZE + count <= FRAME_LIMIT
    ensures var m' := MapFrom(E, m, w.root, virt, phys, count, KERNEL_RWX, true, i).0;
            Held(E, m', w') && Steps(m, w, m', w')
    decreases count - i
  {
    hide Held, Steps, Map, MapBlock;
    w' := w;
    StepsSame(m, w);
    if i < count {
      var v, p := virt + i * FRAME_SIZE, phys + i * FRAME_SIZE;
      assert p / FRAME_SIZE == phys / FRAME_SIZE + i;
      if UsesBlock(v, p, count - i) {
        w' := MapKernelBlock(E, m, w, v, p / FRAME_SIZE);
      } else {
        w' := MapKernelPage(E, m, w, v, p / FRAME_SIZE);
      }
      var ((m1, r), next) := MapStep(E, m, w.root, virt, phys, count, KERNEL_RWX, true, i);
      if r.Mapped? {
        var w1 := w';
        assert w1.root == w.root by { StepsRoot(m, w, m1, w1); }
        w' := RangeSteps(E, m1, w1, virt, phys, count, next);
        StepsTwice(E, m, w, m1, w1, MapFrom(E, m1, w.root, virt, phys, count, KERNEL_RWX, true, next).0, w');
      }
    }
  }

  lemma StepsRoot(m: Machine, w: View, m': Machine, w': View)
    requires Steps(m, w, m', w')
    ensures w'.root == w.root
  {
  }

  // ---- pages of its own ----------------------------------------------------

  /** The frame of a new page becomes the process's own. */
  lemma OwnStep(E: Encoder, m: Machine, w: View, m1: Machine, f: nat, content: Page, m': Machine, tree': Tree, v: nat,
                perms: Permissions, done: bool)
    requires Held(E, m, w) && Filled(E, m, w.root, w.tree, m1, f, content)
    requires SpaceOk(E, m', w.root, tree') && Grown(m1, w.tree, m', tree')
    requires OnlyNear(E, m1.mem, m'.mem, w.root, v, Hit(E.encodeLeaf(f, perms), LEVELS - 1), done)
    ensures var w' := View(w.root, tree', if done then w.own + {f} else w.own);
            Held(E, m', w') && Steps(m, w, m', w')
  {
    hide Wf, Lookup, LookupAt, Consistent, Supervisor, OnlyNear;
    var own' := if done then w.own + {f} else w.own;
    OwnConfined(E, m, w, m1, f, m', v, perms, done);
    forall g: nat | Bit(m.pool.words, g)
      ensures Bit(m'.pool.words, g)
    {
      PaddingStays(m, m', g);
    }
    forall g | g in tree'.Keys && g !in w.tree
      ensures IsFree(m.pool, g) && g != f && g !in w.own
    {
      assert IsFree(m1.pool, g);
    }
  }

  lemma OwnConfined(E: Encoder, m: Machine, w: View, m1: Machine, f: nat, m': Machine, v: nat, perms: Permissions,
                    done: bool)
    requires Lawful(E) && Confined(E, m.mem, w.root, w.own) && f < FRAME_LIMIT
    requires forall q: nat :: LookupAt(E, m1.mem, w.root, q) == LookupAt(E, m.mem, w.root, q)
    requires OnlyNear(E, m1.mem, m'.mem, w.root, v, Hit(E.encodeLeaf(f, perms), LEVELS - 1), done)
    ensures Confined(E, m'.mem, w.root, if done then w.own + {f} else w.own)
  {
    hide LookupAt, Supervisor, Near;
  }

  lemma PageSteps(E: Encoder, m: Machine, w: View, v: nat, perms: Permissions, content: Page) returns (w': View)
    requires Held(E, m, w)
    ensures var m' := LoadPage(E, m, w.root, v, perms, content).0;
            Held(E, m', w') && Steps(m, w, m', w')
  {
    hide Wf, Lookup, LookupAt, Map, Lawful, Consistent, Filled, Grown, OnlyNear, Steps, Confined, Missing;
    w' := w;
    StepsSame(m, w);
    var a := AllocateZeroed(m);
    if a.1.Frame? {
      var f := a.1.index;
      var m1 := Machine(SetPage(a.0.mem, f, content), a.0.pool);
      FreshFrame(E, m, w.root, w.tree, content);
      FilledFacts(E, m, w.root, w.tree, m1, f, content);
      var tree' := MapCorrect(E, m1, w.root, w.tree, v, f, perms);
      var (m', r) := Map(E, m1, w.root, v, f, perms);
      OwnStep(E, m, w, m1, f, content, m', tree', v, perms, r.Mapped?);
      w' := View(w.root, tree', if r.Mapped? then w.own + {f} else w.own);
    } else {
      AllocateIsLowestFree(m.pool);
    }
  }

  lemma FilledFacts(E: Encoder, m: Machine, root: nat, tree: Tree, m1: Machine, f: nat, content: Page)
    requires Filled(E, m, root, tree, m1, f, content)
    ensures SpaceOk(E, m1, root, tree) && f < FRAME_LIMIT
  {
  }

  lemma {:induction false} SegmentSteps(E: Encoder, m: Machine, w: View, seg: Segment, p: nat) returns (w': View)
    requires Held(E, m, w)
    ensures var m' := LoadSegmentFrom(E, m, w.root, seg, p).0;
            Held(E, m', w') && Steps(m, w, m', w')
    decreases seg.PageCount() - p
  {
    hide Held, Steps, LoadPage, PageContent;
    w' := w;
    StepsSame(m, w);
    if p < seg.PageCount() {
      var v := seg.PageVirt(p);
      var (m1, r) := LoadPage(E, m, w.root, v, seg.Perms(), PageContent(seg, v));
      var w1 := PageSteps(E, m, w, v, seg.Perms(), PageContent(seg, v));
      w' := w1;
      if r.Loaded? {
        StepsRoot(m, w, m1, w1);
        w' := SegmentSteps(E, m1, w1, seg, p + 1);
        StepsTwice(E, m, w, m1, w1, LoadSegmentFrom(E, m1, w.root, seg, p + 1).0, w');
      }
    }
  }

  lemma {:induction false} ImageSteps(E: Encoder, m: Machine, w: View, image: Image, i: nat) returns (w': View)
    requires Held(E, m, w)
    ensures var m' := LoadFrom(E, m, w.root, image, i).0;
            Held(E, m', w') && Steps(m, w, m', w')
    decreases |image.segments| - i
  {
    hide Held, Steps, LoadSegmentFrom;
    w' := w;
    StepsSame(m, w);
    if i < |image.segments| && image.segments[i].EndFits() {
      var seg := image.segments[i];
      var (m1, r) := LoadSegmentFrom(E, m, w.root, seg, 0);
      var w1 := SegmentSteps(E, m, w, seg, 0);
      w' := w1;
      if r.Loaded? {
        StepsRoot(m, w, m1, w1);
        w' := ImageSteps(E, m1, w1, image, i + 1);
        StepsTwice(E, m, w, m1, w1, LoadFrom(E, m1, w.root, image, i + 1).0, w');
      }
    }
  }

  lemma {:induction false} StackSteps(E: Encoder, m: Machine, w: View, base: nat, pages: nat, p: nat) returns (w': View)
    requires Held(E, m, w)
    ensures var m' := StackFrom(E, m, w.root, base, pages, p).0;
            Held(E, m', w') && Steps(m, w, m', w')
    decreases pages - p
  {
    hide Held, Steps, LoadPage;
    w' := w;
    StepsSame(m, w);
    if p < pages {
      var v := base + p * FRAME_SIZE;
      var (m1, r) := LoadPage(E, m, w.root, v, USER_RW, ZeroPage());
      var w1 := PageSteps(E, m, w, v, USER_RW, ZeroPage());
      w' := w1;
      if r.Loaded? {
        StepsRoot(m, w, m1, w1);
        w' := StackSteps(E, m1, w1, base, pages, p + 1);
        StepsTwice(E, m, w, m1, w1, StackFrom(E, m1, w.root, base, pages, p + 1).0, w');
      }
    }
  }

  lemma FillSteps(E: Encoder, m: Machine, w: View, image: Image) returns (w': View)
    requires Held(E, m, w)
    ensures var m' := Fill(E, m, w.root, image).0;
            Held(E, m', w') && Steps(m, w, m', w')
  {
    hide Held, Steps, MapFrom, LoadFrom, StackFrom;
    var root := w.root;
    var k := MapRange(E, m, root, 0, 0, KERNEL_PAGES, KERNEL_RWX);
    var w1 := RangeSteps(E, m, w, 0, 0, KERNEL_PAGES, 0);
    StepsRoot(m, w, k.0, w1);
    w' := w1;
    if k.1.Mapped? {
      var l := LoadAppImage(E, k.0, root, image);
      var w2 := ImageSteps(E, k.0, w1, image, 0);
      StepsTwice(E, m, w, k.0, w1, l.0, w2);
      StepsRoot(k.0, w1, l.0, w2);
      w' := w2;
      if l.1.Loaded? {
        w' := AppSteps(E, l.0, w2, AppBase(l.1.value));
        StepsTwice(E, m, w, l.0, w2, Fill(E, m, root, image).0, w');
      }
    }
  }

  /** The machine after stack and heap. */
  function StackAndHeap(E: Encoder, m: Machine, root: nat, base: nat): Machine {
    var s := MapUserStack(E, m, root, base + STACK_OFFSET, 1);
    if s.1.Loaded? then MapUserStack(E, s.0, root, base + HEAP_OFFSET, HEAP_PAGES).0 else s.0
  }

  lemma AppSteps(E: Encoder, m: Machine, w: View, base: nat) returns (w': View)
    requires Held(E, m, w)
    ensures var m' := StackAndHeap(E, m, w.root, base);
            Held(E, m', w') && Steps(m, w, m', w')
  {
    hide Held, Steps, StackFrom;
    var s := MapUserStack(E, m, w.root, base + STACK_OFFSET, 1);
    var w1 := StackSteps(E, m, w, base + STACK_OFFSET, 1, 0);
    StepsRoot(m, w, s.0, w1);
    w' := w1;
    if s.1.Loaded? {
      w' := StackSteps(E, s.0, w1, base + HEAP_OFFSET, HEAP_PAGES, 0);
      StepsTwice(E, m, w, s.0, w1, StackAndHeap(E, m, w.root, base), w');
    }
  }

  // ---- many spaces ---------------------------------------------------------

  /** Each space is held, and no two have a frame in common. */
  ghost predicate Apart(E: Encoder, m: Machine, ws: seq<View>) {
    && Lawful(E) && MachineOk(m)
    && (forall i :: 0 <= i < |ws| ==> Held(E, m, ws[i]))
    && (forall i, j {:trigger Frames(ws[i]), Frames(ws[j])} :: 0 <= i < j < |ws| ==> Frames(ws[i]) !! Frames(ws[j]))
  }

  /** Space `w` and every frame of it are in `m'` what they are in `m`. */
  ghost predicate Untouched(E: Encoder, m: Machine, m': Machine, w: View) {
    && (forall f: nat :: f in Frames(w) && f < |m.mem| && f < |m'.mem| ==> m'.mem[f] == m.mem[f])
    && (forall q: nat :: LookupAt(E, m'.mem, w.root, q) == LookupAt(E, m.mem, w.root, q))
  }

  /** A held space is unaffected when its frames keep their contents and their bits. */
  lemma HeldElsewhere(E: Encoder, m: Machine, m': Machine, w: View)
    requires Held(E, m, w) && MachineOk(m') && |m'.mem| == |m.mem| && m'.pool.frameCount == m.pool.frameCount
    requires forall f: nat :: f in Frames(w) && f < |m.mem| ==> m'.mem[f] == m.mem[f]
    requires forall f: nat :: f in Frames(w) ==> Bit(m'.pool.words, f)
    ensures Held(E, m', w) && Untouched(E, m, m', w)
  {
    hide Lookup, LookupAt, HitOk, Consistent, Lawful;
    ForeignSpace(E, m.mem, m'.mem, w.root, w.tree);
  }

  /** A new root: an empty space of its own. */
  lemma NewSpace(E: Encoder, m: Machine)
    requires Lawful(E) && MachineOk(m) && AllocateZeroed(m).1.Frame?
    ensures var (m1, a) := AllocateZeroed(m);
            && Held(E, m1, View(a.index, RootOnly(a.index), {})) && IsFree(m.pool, a.index)
            && |m1.mem| == |m.mem| && m1.pool.frameCount == m.pool.frameCount
            && (forall f: nat :: Bit(m.pool.words, f) ==> Bit(m1.pool.words, f))
            && (forall f: nat :: f < |m.mem| && f != a.index ==> m1.mem[f] == m.mem[f])
  {
    hide Lookup, Lawful, Allocate;
    AllocateIsLowestFree(m.pool);
    var (m1, a) := AllocateZeroed(m);
    EmptySpace(E, m1.mem, a.index);
  }

  /** What is allocated in `m` is neither changed nor released by a start. */
  lemma StartKeepsFrames(E: Encoder, m: Machine, image: Image) returns (w': View)
    requires Lawful(E) && MachineOk(m) && AllocateZeroed(m).1.Frame?
    ensures var (m1, a) := AllocateZeroed(m);
            var m' := Fill(E, m1, a.index, image).0;
            && Held(E, m', w') && w'.root == a.index
            && |m'.mem| == |m.mem| && m'.pool.frameCount == m.pool.frameCount
            && (forall f :: f in Frames(w') ==> IsFree(m.pool, f))
            && (forall f: nat :: Bit(m.pool.words, f) ==> Bit(m'.pool.words, f))
            && (forall f: nat :: f < |m.mem| && Bit(m.pool.words, f) ==> m'.mem[f] == m.mem[f])
  {
    hide Held, Fill, AllocateZeroed, Bit, Lawful, MachineOk;
    var (m1, a) := AllocateZeroed(m);
    NewSpace(E, m);
    var w := View(a.index, RootOnly(a.index), {});
    w' := FillSteps(E, m1, w, image);
    assert w.tree.Keys == {a.index};
  }

  lemma HeldAllocated(E: Encoder, m: Machine, w: View)
    requires Held(E, m, w)
    ensures MachineOk(m) && forall f :: f in Frames(w) ==> f < m.pool.frameCount && Bit(m.pool.words, f)
  {
  }

  /** Starting an image keeps all spaces apart and leaves the earlier ones untouched, whether or
      not the start succeeds. */
  lemma StartKeepsApart(E: Encoder, w: World, ws: seq<View>, image: Image) returns (ws': seq<View>)
    requires Apart(E, w.m, ws)
    ensures var w1 := Start(E, w, image);
            && Apart(E, w1.m, ws') && |ws'| == |ws| + (|w1.roots| - |w.roots|) && ws <= ws'
            && (|w1.roots| > |w.roots| ==> ws'[|ws|].root == w1.roots[|w.roots|])
            && (forall i :: 0 <= i < |ws| ==> Untouched(E, w.m, w1.m, ws[i]))
  {
    hide Held, Fill, Bit, Lawful, MachineOk, Untouched, Allocate;
    var (m1, a) := AllocateZeroed(w.m);
    if a.Frame? {
      var w' := StartKeepsFrames(E, w.m, image);
      var m' := Fill(E, m1, a.index, image).0;
      ws' := ws + [w'];
      HeldAllocated(E, m', w');
      forall i | 0 <= i < |ws|
        ensures Held(E, m', ws[i]) && Untouched(E, w.m, m', ws[i]) && Frames(ws[i]) !! Frames(w')
      {
        HeldAllocated(E, w.m, ws[i]);
        HeldElsewhere(E, w.m, m', ws[i]);
      }
    } else {
      ws' := ws;
      NoChange(E, w.m);
      forall i | 0 <= i < |ws|
        ensures Untouched(E, w.m, w.m, ws[i])
      {
        UntouchedSame(E, w.m, ws[i]);
      }
    }
  }

  lemma NoChange(E: Encoder, m: Machine)
    requires MachineOk(m) && !AllocateZeroed(m).1.Frame?
    ensures AllocateZeroed(m).0 == m
  {
    AllocateIsLowestFree(m.pool);
  }

  lemma UntouchedSame(E: Encoder, m: Machine, w: View)
    ensures Untouched(E, m, m, w)
  {
  }

  // ---- whole runs ----------------------------------------------------------

  /** After every run all spaces are apart. */
  lemma {:induction false} RunApart(E: Encoder, m: Machine, images: seq<Image>) returns (ws: seq<View>)
    requires Lawful(E) && MachineOk(m)
    ensures var w := Run(E, m, images);
            && Apart(E, w.m, ws) && |ws| == |w.roots|
            && (forall i :: 0 <= i < |ws| ==> ws[i].root == w.roots[i])
    decreases |images|
  {
    hide Held, Start, Lawful, MachineOk;
    if images == [] {
      ws := [];
    } else {
      var before, image := images[..|images| - 1], images[|images| - 1];
      var ws0 := RunApart(E, m, before);
      ws := StartKeepsApart(E, Run(E, m, before), ws0, image);
      StartRoots(E, Run(E, m, before), image);
    }
  }

  lemma StartRoots(E: Encoder, w: World, image: Image)
    ensures var w1 := Start(E, w, image);
            |w.roots| <= |w1.roots| <= |w.roots| + 1 && w1.roots[..|w.roots|] == w.roots
  {
    hide Fill, AllocateZeroed;
  }

  /** Address `v` of the space at `root` is decided by something other than the kernel's range:
      by a page onto frame `f`. */
  ghost predicate UserPage(E: Encoder, mem: Memory, root: nat, v: nat, f: nat) {
    var h := LookupAt(E, mem, root, v);
    h.Some? && !Supervisor(E, h.value) && E.entryFrame(h.value.entry) == f
  }

  /** After every run, the user pages of two processes have no frame in common, and no user page
      of a process is a page table of any. */
  lemma ProcessesApart(E: Encoder, m: Machine, images: seq<Image>, i: nat, v: nat, f: nat, j: nat)
    requires Lawful(E) && MachineOk(m) && i < |Run(E, m, images).roots| && j < |Run(E, m, images).roots|
    requires UserPage(E, Run(E, m, images).m.mem, Run(E, m, images).roots[i], v, f)
    ensures var w := Run(E, m, images);
            && (i != j ==> forall x: nat :: !UserPage(E, w.m.mem, w.roots[j], x, f))
            && (forall p: seq<nat> :: TableAt(E, w.m.mem, w.roots[j], p) != Some(f))
            && Translate(E, w.m.mem, w.roots[i], v) == Some(f * FRAME_SIZE + v % FRAME_SIZE)
  {
    hide Run, Lawful, MachineOk, TableAt, Supervisor, LookupAt, Translate;
    var w := Run(E, m, images);
    var ws := RunApart(E, m, images);
    OwnPage(E, w.m, ws[i], v, f);
    assert f in Frames(ws[i]);
    forall p: seq<nat>
      ensures TableAt(E, w.m.mem, w.roots[j], p) != Some(f)
    {
      NotATable(E, w.m, ws[j], p, f, i != j);
    }
    if i != j {
      assert Frames(ws[if i < j then i else j]) !! Frames(ws[if i < j then j else i]);
      forall x: nat
        ensures !UserPage(E, w.m.mem, w.roots[j], x, f)
      {
        NotTheirs(E, w.m, ws[j], x, f);
      }
    }
  }

  lemma OwnPage(E: Encoder, m: Machine, w: View, v: nat, f: nat)
    requires Held(E, m, w) && UserPage(E, m.mem, w.root, v, f)
    ensures f in w.own && Translate(E, m.mem, w.root, v) == Some(f * FRAME_SIZE + v % FRAME_SIZE)
  {
    hide Supervisor, Lookup;
    LeafTranslates(E, LookupAt(E, m.mem, w.root, v).value, f, v);
  }

  lemma NotTheirs(E: Encoder, m: Machine, w: View, v: nat, f: nat)
    requires Held(E, m, w) && f !in Frames(w)
    ensures !UserPage(E, m.mem, w.root, v, f)
  {
    hide Supervisor, Lookup;
  }

  lemma NotATable(E: Encoder, m: Machine, w: View, p: seq<nat>, f: nat, other: bool)
    requires Held(E, m, w) && (if other then f !in Frames(w) else f in w.own)
    ensures TableAt(E, m.mem, w.root, p) != Some(f)
  {
    hide TableAt, Wf, Confined, Lawful;
    if HasTable(E, m.mem, w.root, p) {
      TableInTree(E, m.mem, w.root, w.tree, p);
    }
  }

  /** Starting one more image, successfully or not, changes no address of an earlier process and
      no byte of its user pages. */
  lemma StartDisturbsNothing(E: Encoder, m: Machine, images: seq<Image>, image: Image, i: nat, v: nat)
    requires Lawful(E) && MachineOk(m) && i < |Run(E, m, images).roots|
    ensures var w, w' := Run(E, m, images), Start(E, Run(E, m, images), image);
            var root := w.roots[i];
            && LookupAt(E, w'.m.mem, root, v) == LookupAt(E, w.m.mem, root, v)
            && (forall f: nat :: UserPage(E, w.m.mem, root, v, f) ==>
                  f < |w.m.mem| && f < |w'.m.mem| && w'.m.mem[f] == w.m.mem[f])
  {
    hide Run, Lawful, MachineOk, Supervisor, LookupAt, Start;
    var w := Run(E, m, images);
    var ws := RunApart(E, m, images);
    var ws' := StartKeepsApart(E, w, ws, image);
    assert Untouched(E, w.m, Start(E, w, image).m, ws[i]);
    forall f: nat | UserPage(E, w.m.mem, w.roots[i], v, f)
      ensures f in Frames(ws[i]) && f < |w.m.mem| && f < |Start(E, w, image).m.mem|
    {
      OwnPage(E, w.m, ws[i], v, f);
      InMemory(E, w.m, ws[i], f);
      assert ws'[i] == ws[i];
      InMemory(E, Start(E, w, image).m, ws[i], f);
    }
  }

  lemma InMemory(E: Encoder, m: Machine, w: View, f: nat)
    requires Held(E, m, w) && f in w.own
    ensures f < |m.mem|
  {
  }

  /** In the kernel's encoding, entries of the kernel's range are closed to the user. */
  lemma SupervisorOnly(h: Hit)
    requires Supervisor(X86_64, h)
    ensures !BitOn(h.entry, 4)
  {
    hide LeafWord, BlockWord;
    if f: nat :| h.entry == X86_64.encodeLeaf(f, KERNEL_RWX) {
      SameFrame(f);
      EntryBits(f % FRAME_LIMIT, KERNEL_RWX, LEVELS - 2);
    } else {
      var g: nat :| h.entry == KernelBlock(X86_64, g);
      SameFrame(g);
      EntryBits(g % FRAME_LIMIT, KERNEL_RWX, LEVELS - 2);
    }
  }

  lemma SameFrame(f: nat)
    ensures LeafWord(f, KERNEL_RWX, true) == LeafWord(f % FRAME_LIMIT, KERNEL_RWX, true)
    ensures BlockWord(f, KERNEL_RWX, true) == BlockWord(f % FRAME_LIMIT, KERNEL_RWX, true)
  {
  }

  // ---- a prepared process --------------------------------------------------

  /** The first GiB is the kernel's, mapped one to one and for the supervisor only. */
  ghost predicate KernelMapped(E: Encoder, mem: Memory, root: nat) {
    && (forall o: nat :: o < 0x4000_0000 ==> Translate(E, mem, root, o) == Some(o))
    && RangeEntries(E, mem, root, 0, 0, 0x4_0000, Permissions(true, true, true, false, false), true, 0x4_0000)
  }

  predicate ZeroAt(E: Encoder, m: Machine, root: nat, base: nat, k: nat) {
    Loader.Reads(E, m, root, base + k, 0)
  }

  /** The page at `v` may be read and written by the user and not executed. */
  ghost predicate UserData(E: Encoder, mem: Memory, root: nat, v: nat) {
    exists f: nat :: PageIs(E, mem, root, v, f, Permissions(true, true, false, true, false))
  }

  /** `pages` pages from `base` on are zero and may be read and written by the user only. */
  ghost predicate ZeroedPages(E: Encoder, m: Machine, root: nat, base: nat, pages: nat) {
    && (forall k: nat :: k < pages * FRAME_SIZE ==> ZeroAt(E, m, root, base, k))
    && (forall p: nat {:trigger StackPage(base, p)} :: p < pages ==> UserData(E, m.mem, root, StackPage(base, p)))
  }

  lemma KernelKept(E: Encoder, m: Machine, tree: Tree, m': Machine, tree': Tree, root: nat)
    requires KernelMapped(E, m.mem, root) && Undisturbed(E, m, tree, m', tree', root)
    ensures KernelMapped(E, m'.mem, root)
  {
    hide LookupAt, EntryIs;
    forall o: nat | o < 0x4000_0000
      ensures Translate(E, m'.mem, root, o) == Some(o)
    {
      SameWalk(E, m, tree, m', tree', root, o);
    }
    forall j: nat | j < 0x4_0000
      ensures EntryIs(E, LookupAt(E, m'.mem, root, 0 + j * FRAME_SIZE), 0, 0, 0x4_0000,
                      Permissions(true, true, true, false, false), true, j)
    {
      assert EntryIs(E, LookupAt(E, m.mem, root, 0 + j * FRAME_SIZE), 0, 0, 0x4_0000,
                     Permissions(true, true, true, false, false), true, j);
      assert Translate(E, m.mem, root, 0 + j * FRAME_SIZE).Some?;
      SameWalk(E, m, tree, m', tree', root, 0 + j * FRAME_SIZE);
    }
  }

  lemma SameWalk(E: Encoder, m: Machine, tree: Tree, m': Machine, tree': Tree, root: nat, q: nat)
    requires Undisturbed(E, m, tree, m', tree', root) && Translate(E, m.mem, root, q).Some?
    ensures LookupAt(E, m'.mem, root, q) == LookupAt(E, m.mem, root, q)
    ensures Translate(E, m'.mem, root, q) == Translate(E, m.mem, root, q)
  {
    hide Lookup;
    assert LookupAt(E, m.mem, root, q).Some?;
  }

  lemma KernelDone(E: Encoder, m: Machine, root: nat, tree: Tree) returns (tree': Tree)
    requires SpaceOk(E, m, root, tree) && MapRange(E, m, root, 0, 0, KERNEL_PAGES, KERNEL_RWX).1.Mapped?
    ensures var m' := MapRange(E, m, root, 0, 0, KERNEL_PAGES, KERNEL_RWX).0;
            SpaceOk(E, m', root, tree') && KernelMapped(E, m'.mem, root)
  {
    hide SpaceOk, MapRange, Translate, RangeEntries, Grown;
    var done;
    tree', done := MapRangeCorrect(E, m, root, tree, 0, 0, KERNEL_PAGES, KERNEL_RWX);
    var all := MapRangeEntries(E, m, root, tree, 0, 0, KERNEL_PAGES, KERNEL_RWX);
    var m' := MapRange(E, m, root, 0, 0, KERNEL_PAGES, KERNEL_RWX).0;
    forall o: nat | o < 0x4000_0000
      ensures Translate(E, m'.mem, root, o) == Some(o)
    {
      assert Linear(E, m'.mem, root, 0, 0, o);
    }
  }

  lemma StackZeroed(E: Encoder, m: Machine, root: nat, tree: Tree, base: nat, pages: nat)
    requires SpaceOk(E, m, root, tree) && StackHolds(E, m, tree, root, base, pages)
    ensures ZeroedPages(E, m, root, base, pages)
  {
    hide SpaceOk, PageIs, Translate, ByteOf, ByteAt, ZeroPage;
    LawfulSpace(E, m, root, tree);
    forall k: nat | k < pages * FRAME_SIZE
      ensures ZeroAt(E, m, root, base, k)
    {
      var p, o := k / FRAME_SIZE, k % FRAME_SIZE;
      assert StackPage(base, p) + o == base + k;
      PageHoldsByte(E, m, tree, root, StackPage(base, p), USER_RW, ZeroPage(), o);
      ZeroByte(o);
    }
    forall p: nat {:trigger StackPage(base, p)} | p < pages
      ensures UserData(E, m.mem, root, StackPage(base, p))
    {
      HeldIsData(E, m, tree, root, StackPage(base, p), ZeroPage());
    }
  }

  lemma HeldIsData(E: Encoder, m: Machine, tree: Tree, root: nat, v: nat, content: Page)
    requires PageHolds(E, m, tree, root, v, USER_RW, content)
    ensures UserData(E, m.mem, root, v)
  {
    hide PageIs;
  }

  lemma StackKept(E: Encoder, m: Machine, tree: Tree, m': Machine, tree': Tree, root: nat, base: nat, n: nat)
    requires Undisturbed(E, m, tree, m', tree', root) && StackHolds(E, m, tree, root, base, n)
    ensures StackHolds(E, m', tree', root, base, n)
  {
    hide PageHolds, Undisturbed;
    forall p: nat {:trigger StackPage(base, p)} | p < n
      ensures PageHolds(E, m', tree', root, StackPage(base, p), USER_RW, ZeroPage())
    {
      PageHoldsKept(E, m, tree, m', tree', root, StackPage(base, p), USER_RW, ZeroPage());
    }
  }

  lemma ImageKept(E: Encoder, m: Machine, tree: Tree, m': Machine, tree': Tree, root: nat, image: Image)
    requires Undisturbed(E, m, tree, m', tree', root) && ImageHolds(E, m, tree, root, image, |image.segments|)
    ensures ImageHolds(E, m', tree', root, image, |image.segments|)
  {
    hide SegmentHolds, Undisturbed;
    forall i | 0 <= i < |image.segments|
      ensures SegmentHolds(E, m', tree', root, image.segments[i], image.segments[i].PageCount())
    {
      SegmentHoldsKept(E, m, tree, m', tree', root, image.segments[i], image.segments[i].PageCount());
    }
  }

  /** What a process finds when it is entered: its image, a stack of one page 1 MiB into its 4 GiB
      region, a heap of 64 pages 2 MiB into it, and the kernel out of its reach. */
  lemma PreparedApp(E: Encoder, m: Machine, root: nat, tree: Tree, image: Image, base: nat)
    requires SpaceOk(E, m, root, tree) && Fill(E, m, root, image).1.Some? && image.entry < WORD_LIMIT
    requires base % 0x1_0000_0000 == 0 && base <= image.entry < base + 0x1_0000_0000
    ensures var (m', r) := Fill(E, m, root, image);
            && r.value == Process(image.entry, base + 0x10_1000, base + 0x20_0000)
            && KernelMapped(E, m'.mem, root)
            && ZeroedPages(E, m', root, base + 0x10_0000, 1) && ZeroedPages(E, m', root, base + 0x20_0000, 64)
            && ImageReads(E, m', root, image)
  {
    hide SpaceOk, MapFrom, LoadFrom, MapUserStack, KernelMapped, ZeroedPages, Undisturbed, ImageHolds, ImageReads;
    var m1 := MapRange(E, m, root, 0, 0, KERNEL_PAGES, KERNEL_RWX).0;
    var tree1 := KernelDone(E, m, root, tree);
    var m2 := LoadAppImage(E, m1, root, image).0;
    NoneHeld(E, m1, tree1, root, image);
    var tree2 := LoadFromCorrect(E, m1, root, tree1, image, 0);
    TopOfStack(image.entry, base);
    var m4 := Fill(E, m, root, image).0;
    var tree4 := PreparedPages(E, m2, root, tree2, base);
    UndisturbedTwice(E, m1, tree1, m2, tree2, m4, tree4, root);
    KernelKept(E, m1, tree1, m4, tree4, root);
    ImageKept(E, m2, tree2, m4, tree4, root, image);
    ImageShown(E, m4, root, tree4, image);
  }

  lemma PreparedPages(E: Encoder, m: Machine, root: nat, tree: Tree, base: nat) returns (tree': Tree)
    requires SpaceOk(E, m, root, tree)
    requires MapUserStack(E, m, root, base + STACK_OFFSET, 1).1.Loaded?
    requires MapUserStack(E, MapUserStack(E, m, root, base + STACK_OFFSET, 1).0, root, base + HEAP_OFFSET,
                          HEAP_PAGES).1.Loaded?
    ensures var (m1, s) := MapUserStack(E, m, root, base + STACK_OFFSET, 1);
            var m' := MapUserStack(E, m1, root, base + HEAP_OFFSET, HEAP_PAGES).0;
            && s.value == StackTop(base + STACK_OFFSET, 1)
            && SpaceOk(E, m', root, tree') && Undisturbed(E, m, tree, m', tree', root)
            && ZeroedPages(E, m', root, base + 0x10_0000, 1) && ZeroedPages(E, m', root, base + 0x20_0000, 64)
  {
    hide SpaceOk, StackFrom, ZeroedPages, Undisturbed, StackHolds;
    var m1 := MapUserStack(E, m, root, base + STACK_OFFSET, 1).0;
    NoneStacked(E, m, tree, root, base + STACK_OFFSET);
    var tree1 := StackCorrect(E, m, root, tree, base + STACK_OFFSET, 1, 0);
    var m' := MapUserStack(E, m1, root, base + HEAP_OFFSET, HEAP_PAGES).0;
    NoneStacked(E, m1, tree1, root, base + HEAP_OFFSET);
    tree' := StackCorrect(E, m1, root, tree1, base + HEAP_OFFSET, HEAP_PAGES, 0);
    UndisturbedTwice(E, m, tree, m1, tree1, m', tree', root);
    StackKept(E, m1, tree1, m', tree', root, base + STACK_OFFSET, 1);
    StackZeroed(E, m', root, tree', base + STACK_OFFSET, 1);
    StackZeroed(E, m', root, tree', base + HEAP_OFFSET, HEAP_PAGES);
  }

  predicate ImageByte(E: Encoder, m: Machine, root: nat, seg: Segment, k: nat) {
    Loader.Reads(E, m, root, seg.vaddr + k, if k < |seg.body| && seg.vaddr + k < LAST_PAGE then seg.body[k] else 0)
  }

  /** Every byte of the image is where it belongs. */
  ghost predicate ImageReads(E: Encoder, m: Machine, root: nat, image: Image) {
    forall i: nat, k: nat :: i < |image.segments| && k < image.segments[i].memSize ==>
      ImageByte(E, m, root, image.segments[i], k)
  }

  lemma ImageShown(E: Encoder, m: Machine, root: nat, tree: Tree, image: Image)
    requires SpaceOk(E, m, root, tree) && ImageHolds(E, m, tree, root, image, |image.segments|)
    ensures ImageReads(E, m, root, image)
  {
    hide SpaceOk, SegmentHolds, Loader.Reads;
    LawfulSpace(E, m, root, tree);
    forall i: nat, k: nat | i < |image.segments| && k < image.segments[i].memSize
      ensures ImageByte(E, m, root, image.segments[i], k)
    {
      ShownByte(E, m, tree, root, image.segments[i], k);
    }
  }

  lemma NoneHeld(E: Encoder, m: Machine, tree: Tree, root: nat, image: Image)
    ensures ImageHolds(E, m, tree, root, image, 0)
  {
  }

  lemma NoneStacked(E: Encoder, m: Machine, tree: Tree, root: nat, base: nat)
    ensures StackHolds(E, m, tree, root, base, 0)
  {
  }

  lemma TopOfStack(entry: nat, base: nat)
    requires entry < WORD_LIMIT && base % 0x1_0000_0000 == 0 && base <= entry < base + 0x1_0000_0000
    ensures AppBase(entry) == base && StackTop(base + STACK_OFFSET, 1) == base + 0x10_1000
  {
    var q := base / 0x1_0000_0000;
    assert base == q * 0x1_0000_0000;
    DivMod(entry, 0x1_0000_0000, q, entry - base);
    var top := base + 0x10_1000;
    assert top == (q * 0x1000_0000 + 0x1_0100) * 16;
    DivMod(top, 16, q * 0x1000_0000 + 0x1_0100, 0);
    RegionEnd(base, q);
    DivMod(top, WORD_LIMIT, 0, top);
  }

  /** A 4 GiB region that starts in the address space ends in it. */
  lemma RegionEnd(base: nat, q: nat)
    requires base == q * 0x1_0000_0000 && base < WORD_LIMIT
    ensures base + 0x1_0000_0000 <= WORD_LIMIT
  {
  }
}
