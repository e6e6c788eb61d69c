/** The virtual-memory code as it runs: tables and frames changed in place by loops,
    each method proved to compute the function that specifies it
    (cibos-kernel/src/paging.rs, cibos-kernel/src/address_space.rs, kernel-image/src/loader.rs). */
module VirtualMemory {
  import opened PageEncoding
  import opened Addressing
  import FP = FramePool
  import PT = PageTables
  import Mapping
  import Ranges
  import B = Boundaries
  import L = Loader
  import P = Processes
  import opened Options

  /** Physical memory behind `phys_to_ptr`. */
  class PhysicalMemory {
    var pages: PT.Memory
  }

  ghost function State(frames: FP.FrameAllocator, ram: PhysicalMemory): PT.Machine
    reads frames, ram
  {
    PT.Machine(ram.pages, frames.Value())
  }

  method AllocateZeroed(frames: FP.FrameAllocator, ram: PhysicalMemory) returns (r: FP.AllocResult)
    modifies frames, ram
    ensures (State(frames, ram), r) == Mapping.AllocateZeroed(old(State(frames, ram)))
  {
    r := frames.AllocateFrame();
    if r.Frame? {
      ram.pages := PT.SetPage(ram.pages, r.index, PT.ZeroPage());
    }
  }

  class AddressSpace {
    const root: nat

    /** `adopt`: wrap an existing root table. */
    constructor (root: nat)
      ensures this.root == root
    {
      this.root := root;
    }

    method Map(E: Encoder, virt: nat, frame: nat, perms: Permissions, frames: FP.FrameAllocator, ram: PhysicalMemory)
      returns (r: Mapping.MapResult)
      modifies frames, ram
      ensures (State(frames, ram), r) == Mapping.Map(E, old(State(frames, ram)), root, virt, frame, perms)
    {
      if virt % FRAME_SIZE != 0 {
        return Mapping.Unaligned;
      }
      var idx := Indices(virt);
      var table := root;
      ghost var w := E.encodeLeaf(frame, perms);
      for level := 0 to LEVELS - 1
        invariant Mapping.Insert(E, old(State(frames, ram)), root, 0, LEVELS - 1, true, idx, w)
               == Mapping.Insert(E, State(frames, ram), table, level, LEVELS - 1, true, idx, w)
      {
        var entry := PT.Entry(ram.pages, table, idx[level]);
        if E.isPresent(entry) {
          if E.isBlockLeaf(entry, level) {
            return Mapping.Covered;
          }
          table := E.entryFrame(entry);
        } else {
          var child := AllocateZeroed(frames, ram);
          if !child.Frame? {
            return Mapping.NoFrame(child);
          }
          ram.pages := PT.SetEntry(ram.pages, table, idx[level], E.encodeTable(child.index));
          table := child.index;
        }
      }
      if E.isPresent(PT.Entry(ram.pages, table, idx[LEVELS - 1])) {
        return Mapping.Occupied;
      }
      ram.pages := PT.SetEntry(ram.pages, table, idx[LEVELS - 1], E.encodeLeaf(frame, perms));
      return Mapping.Mapped;
    }

    method MapBlock2M(E: Encoder, virt: nat, frame: nat, perms: Permissions, frames: FP.FrameAllocator,
                      ram: PhysicalMemory)
      returns (r: Mapping.MapResult)
      modifies frames, ram
      ensures (State(frames, ram), r) == Mapping.MapBlock(E, old(State(frames, ram)), root, virt, frame, perms)
    {
      if virt % Mapping.BLOCK_2M != 0 || (frame * FRAME_SIZE) % Mapping.BLOCK_2M != 0 {
        return Mapping.Unaligned;
      }
      var idx := Indices(virt);
      var table := root;
      ghost var w := E.encodeBlockLeaf(frame, perms, LEVELS - 2);
      for level := 0 to LEVELS - 2
        invariant Mapping.Insert(E, old(State(frames, ram)), root, 0, LEVELS - 2, false, idx, w)
               == Mapping.Insert(E, State(frames, ram), table, level, LEVELS - 2, false, idx, w)
      {
        var entry := PT.Entry(ram.pages, table, idx[level]);
        if E.isPresent(entry) {
          table := E.entryFrame(entry);
        } else {
          var child := AllocateZeroed(frames, ram);
          if !child.Frame? {
            return Mapping.NoFrame(child);
          }
          ram.pages := PT.SetEntry(ram.pages, table, idx[level], E.encodeTable(child.index));
          table := child.index;
        }
      }
      if E.isPresent(PT.Entry(ram.pages, table, idx[LEVELS - 2])) {
        return Mapping.Occupied;
      }
      ram.pages := PT.SetEntry(ram.pages, table, idx[LEVELS - 2], E.encodeBlockLeaf(frame, perms, LEVELS - 2));
      return Mapping.Mapped;
    }

    method MapRange(E: Encoder, virt: nat, phys: nat, count: nat, perms: Permissions, frames: FP.FrameAllocator,
                    ram: PhysicalMemory)
      returns (r: Mapping.MapResult)
      modifies frames, ram
      ensures (State(frames, ram), r) == Ranges.MapRange(E, old(State(frames, ram)), root, virt, phys, count, perms)
    {
      hide Mapping.Map, Mapping.MapBlock, Ranges.UsesBlock;
      var i := 0;
      while i < count
        invariant Ranges.MapFrom(E, old(State(frames, ram)), root, virt, phys, count, perms, true, 0)
               == Ranges.MapFrom(E, State(frames, ram), root, virt, phys, count, perms, true, i)
      {
        var v, p := virt + i * FRAME_SIZE, phys + i * FRAME_SIZE;
        if Ranges.UsesBlock(v, p, count - i) {
          r := MapBlock2M(E, v, p / FRAME_SIZE, perms, frames, ram);
          if !r.Mapped? {
            return;
          }
          i := i + ENTRIES;
        } else {
          r := Map(E, v, p / FRAME_SIZE, perms, frames, ram);
          if !r.Mapped? {
            return;
          }
          i := i + 1;
        }
      }
      return Mapping.Mapped;
    }

    method Translate(E: Encoder, virt: nat, ram: PhysicalMemory) returns (r: Option<nat>)
      ensures r == PT.Translate(E, ram.pages, root, virt)
    {
      var idx := Indices(virt);
      var table := root;
      for level := 0 to LEVELS - 1
        invariant PT.Lookup(E, ram.pages, root, 0, idx) == PT.Lookup(E, ram.pages, table, level, idx)
      {
        var entry := PT.Entry(ram.pages, table, idx[level]);
        if !E.isPresent(entry) {
          return None;
        }
        if E.isBlockLeaf(entry, level) {
          return Some(BitOr(E.entryFrame(entry) * FRAME_SIZE, virt % Span(level)));
        }
        table := E.entryFrame(entry);
      }
      var leaf := PT.Entry(ram.pages, table, idx[LEVELS - 1]);
      if !E.isPresent(leaf) {
        return None;
      }
      return Some(BitOr(E.entryFrame(leaf) * FRAME_SIZE, virt % FRAME_SIZE));
    }
  }

  /** `AddressSpaceManager`: the boundary table over one allocator and one memory. */
  class AddressSpaceManager {
    const frames: FP.FrameAllocator
    const ram: PhysicalMemory
    var spaces: map<nat, B.Space>

    constructor (frames: FP.FrameAllocator, ram: PhysicalMemory)
      ensures this.frames == frames && this.ram == ram && spaces == map[]
    {
      this.frames, this.ram, spaces := frames, ram, map[];
    }

    ghost function Value(): B.Manager
      reads this, frames, ram
    {
      B.Manager(State(frames, ram), spaces)
    }

    method CreateSpace(b: nat) returns (r: B.Outcome)
      modifies this, frames, ram
      ensures (Value(), r) == B.CreateSpace(old(Value()), b)
    {
      if b in spaces {
        return B.AlreadyHasSpace;
      }
      var root := AllocateZeroed(frames, ram);
      if !root.Frame? {
        return B.AllocFailed(root);
      }
      spaces := spaces[b := B.Space(root.index, [])];
      return B.Done;
    }

    method MapNewPages(E: Encoder, b: nat, virt: nat, count: nat, perms: Permissions) returns (r: B.Outcome)
      modifies this, frames, ram
      ensures (Value(), r) == B.MapNewPages(E, old(Value()), b, virt, count, perms)
    {
      hide Mapping.Map, Mapping.AllocateZeroed;
      if b !in spaces {
        return B.UnknownContainer;
      }
      var space := new AddressSpace(spaces[b].root);
      for i := 0 to count
        invariant b in spaces && spaces[b].root == space.root
        invariant spaces == old(spaces)[b := spaces[b]]
        invariant B.MapNewFrom(E, old(State(frames, ram)), old(spaces)[b], virt, count, perms, 0)
               == B.MapNewFrom(E, State(frames, ram), spaces[b], virt, count, perms, i)
      {
        var frame := AllocateZeroed(frames, ram);
        if !frame.Frame? {
          return B.AllocFailed(frame);
        }
        var mapped := space.Map(E, virt + i * FRAME_SIZE, frame.index, perms, frames, ram);
        if !mapped.Mapped? {
          return B.MapFailed(mapped);
        }
        spaces := spaces[b := B.Space(spaces[b].root, spaces[b].mapped + [frame.index])];
      }
      return B.Done;
    }

    method MapExisting(E: Encoder, b: nat, virt: nat, phys: nat, count: nat, perms: Permissions) returns (r: B.Outcome)
      modifies this, frames, ram
      ensures (Value(), r) == B.MapExisting(E, old(Value()), b, virt, phys, count, perms)
    {
      if b !in spaces {
        return B.UnknownContainer;
      }
      var space := new AddressSpace(spaces[b].root);
      var mapped := space.MapRange(E, virt, phys, count, perms, frames, ram);
      return if mapped.Mapped? then B.Done else B.MapFailed(mapped);
    }

    method TranslateIn(E: Encoder, b: nat, virt: nat) returns (r: Option<nat>)
      ensures r == B.TranslateIn(E, Value(), b, virt)
    {
      if b !in spaces {
        return None;
      }
      var space := new AddressSpace(spaces[b].root);
      r := space.Translate(E, virt, ram);
    }

    method DestroySpace(b: nat) returns (r: B.Outcome)
      modifies this, frames
      ensures (Value(), r) == B.DestroySpace(old(Value()), b)
    {
      if b !in spaces {
        return B.UnknownContainer;
      }
      var mapped := spaces[b].mapped;
      spaces := spaces - {b};
      for i := 0 to |mapped|
        invariant spaces == old(spaces) - {b}
        invariant B.ReleaseAll(old(frames.Value()), mapped) == B.ReleaseAll(frames.Value(), mapped[i..])
      {
        assert mapped[i..][0] == mapped[i] && mapped[i..][1..] == mapped[i + 1..];
        frames.ReleaseFrame(mapped[i]);
      }
      return B.Done;
    }
  }

  /** `load_app_image`: segment by segment, page by page, into fresh zeroed frames. */
  method LoadAppImage(E: Encoder, space: AddressSpace, image: L.Image, frames: FP.FrameAllocator, ram: PhysicalMemory)
    returns (r: L.LoadResult)
    modifies frames, ram
    ensures (State(frames, ram), r) == L.LoadAppImage(E, old(State(frames, ram)), space.root, image)
  {
    hide L.LoadSegmentFrom;
    for i := 0 to |image.segments|
      invariant L.LoadFrom(E, old(State(frames, ram)), space.root, image, 0)
             == L.LoadFrom(E, State(frames, ram), space.root, image, i)
    {
      var seg := image.segments[i];
      if !seg.EndFits() {
        return L.SegmentEndOverflow;
      }
      r := LoadSegment(E, space, seg, frames, ram);
      if !r.Loaded? {
        return;
      }
    }
    return L.Loaded(image.entry);
  }

  method LoadSegment(E: Encoder, space: AddressSpace, seg: L.Segment, frames: FP.FrameAllocator, ram: PhysicalMemory)
    returns (r: L.LoadResult)
    modifies frames, ram
    ensures (State(frames, ram), r) == L.LoadSegmentFrom(E, old(State(frames, ram)), space.root, seg, 0)
  {
    hide L.PageContent, Mapping.Map, FP.Allocate;
    for p := 0 to seg.PageCount()
      invariant L.LoadSegmentFrom(E, old(State(frames, ram)), space.root, seg, 0)
             == L.LoadSegmentFrom(E, State(frames, ram), space.root, seg, p)
    {
      var pageVirt := seg.PageVirt(p);
      var frame := AllocateZeroed(frames, ram);
      if !frame.Frame? {
        return L.NoFrameLeft(frame);
      }
      CopyIntoFrame(seg, pageVirt, frame.index, ram);
      var mapped := space.Map(E, pageVirt, frame.index, seg.Perms(), frames, ram);
      if !mapped.Mapped? {
        return L.PageFailed(mapped);
      }
    }
    return L.Loaded(seg.vaddr);
  }

  /** Copies the file bytes of `seg` that land in the page at `pageVirt` into zeroed frame `f`. */
  method CopyIntoFrame(seg: L.Segment, pageVirt: nat, f: nat, ram: PhysicalMemory)
    requires f < |ram.pages| ==> ram.pages[f] == PT.ZeroPage()
    modifies ram
    ensures ram.pages == PT.SetPage(old(ram.pages), f, L.PageContent(seg, pageVirt))
  {
    var copyLo, copyHi := L.CopyLo(seg, pageVirt), L.CopyHi(seg, pageVirt);
    if copyHi > copyLo && f < |ram.pages| {
      var dstOff, srcOff, n := copyLo - pageVirt, copyLo - seg.vaddr, copyHi - copyLo;
      ram.pages := PT.SetPage(ram.pages, f, L.WriteBytes(ram.pages[f], dstOff, seg.body[srcOff..srcOff + n]));
    }
  }

  method MapUserStack(E: Encoder, space: AddressSpace, base: nat, pages: nat, frames: FP.FrameAllocator,
                      ram: PhysicalMemory)
    returns (r: L.LoadResult)
    modifies frames, ram
    ensures (State(frames, ram), r) == L.MapUserStack(E, old(State(frames, ram)), space.root, base, pages)
  {
    hide Mapping.Map, FP.Allocate;
    for p := 0 to pages
      invariant L.StackFrom(E, old(State(frames, ram)), space.root, base, pages, 0)
             == L.StackFrom(E, State(frames, ram), space.root, base, pages, p)
    {
      var frame := AllocateZeroed(frames, ram);
      if !frame.Frame? {
        return L.NoFrameLeft(frame);
      }
      assert PT.SetPage(ram.pages, frame.index, PT.ZeroPage()) == ram.pages;
      var mapped := space.Map(E, base + p * FRAME_SIZE, frame.index, USER_RW, frames, ram);
      if !mapped.Mapped? {
        return L.PageFailed(mapped);
      }
    }
    return L.Loaded(L.StackTop(base, pages));
  }

  /** `run_app_image_isolated` up to the switch to the application: a space of its own with the
      kernel's range, the segments, a stack and a heap. */
  method PrepareApp(E: Encoder, image: L.Image, frames: FP.FrameAllocator, ram: PhysicalMemory)
    returns (r: Option<P.Process>)
    modifies frames, ram
    ensures var (m1, a) := Mapping.AllocateZeroed(old(State(frames, ram)));
            if a.Frame? then (State(frames, ram), r) == P.Fill(E, m1, a.index, image)
            else State(frames, ram) == m1 && r == None
  {
    hide Ranges.MapFrom, L.LoadFrom, L.StackFrom, FP.Allocate;
    var root := AllocateZeroed(frames, ram);
    if !root.Frame? {
      return None;
    }
    var space := new AddressSpace(root.index);
    var kernel := space.MapRange(E, 0, 0, P.KERNEL_PAGES, P.KERNEL_RWX, frames, ram);
    if !kernel.Mapped? {
      return None;
    }
    var entry := LoadAppImage(E, space, image, frames, ram);
    if !entry.Loaded? {
      return None;
    }
    var base := P.AppBase(entry.value);
    var top := MapUserStack(E, space, base + P.STACK_OFFSET, 1, frames, ram);
    if !top.Loaded? {
      return None;
    }
    var heap := MapUserStack(E, space, base + P.HEAP_OFFSET, P.HEAP_PAGES, frames, ram);
    return if heap.Loaded? then Some(P.Process(entry.value, top.value, base + P.HEAP_OFFSET)) else None;
  }
}
