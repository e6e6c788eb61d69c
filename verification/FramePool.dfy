/** The physical frame allocator: a bitmap over all frames, an allocation count
    and a search hint (cibos-kernel/src/frame.rs).

    A frame is named by its index (address / FRAME_SIZE). A 64-bit bitmap word is
    its sequence of 64 bits, so `word & (1 << k) != 0` reads `word[k]`. Rust's
    bounds-check panic on the bitmap is the outcome `IndexPanic`. */
module FramePool {
  import opened LittleEndian
  import opened Addressing

  type BitWord = s: seq<bool> | |s| == 64 witness seq(64, _ => true)

  datatype Pool = Pool(words: seq<BitWord>, frameCount: nat, inUse: nat, nextHint: nat)

  datatype AllocResult = Frame(index: nat) | LimitExceeded | IndexPanic

  // ---- bits ----------------------------------------------------------------

  predicate Bit(words: seq<BitWord>, f: nat) {
    f < 64 * |words| && words[f / 64][f % 64]
  }

  function SetBit(words: seq<BitWord>, f: nat, b: bool): (r: seq<BitWord>)
    requires f < 64 * |words|
    ensures |r| == |words|
    ensures forall g: nat :: g < 64 * |words| ==> Bit(r, g) == if g == f then b else Bit(words, g)
  {
    words[f / 64 := words[f / 64][f % 64 := b]]
  }

  /** Number of set bits among frames `0..n`. */
  function CountSet(words: seq<BitWord>, n: nat): (c: nat)
    requires n <= 64 * |words|
    ensures c <= n
  {
    if n == 0 then 0 else CountSet(words, n - 1) + if Bit(words, n - 1) then 1 else 0
  }

  lemma {:induction false} CountSame(a: seq<BitWord>, b: seq<BitWord>, n: nat)
    requires n <= 64 * |a| && n <= 64 * |b|
    requires forall g: nat :: g < n ==> Bit(a, g) == Bit(b, g)
    ensures CountSet(a, n) == CountSet(b, n)
  {
    if n > 0 {
      CountSame(a, b, n - 1);
    }
  }

  lemma {:induction false} CountSetBit(words: seq<BitWord>, f: nat, b: bool, n: nat)
    requires f < n <= 64 * |words| && Bit(words, f) != b
    ensures CountSet(SetBit(words, f, b), n) == CountSet(words, n) + if b then 1 else -1
  {
    if f == n - 1 {
      CountSame(SetBit(words, f, b), words, n - 1);
    } else {
      CountSetBit(words, f, b, n - 1);
    }
  }

  // ---- the pool's specification --------------------------------------------

  predicate Shaped(p: Pool) {
    |p.words| == (p.frameCount + 63) / 64
  }

  predicate IsFree(p: Pool, f: nat) {
    f < p.frameCount && !Bit(p.words, f)
  }

  /** What every run keeps: padding bits stay set, the counter counts set bits,
      and every frame below the hint is allocated. */
  ghost predicate Consistent(p: Pool) {
    && Shaped(p)
    && (forall g: nat :: p.frameCount <= g < 64 * |p.words| ==> Bit(p.words, g))
    && p.inUse == CountSet(p.words, p.frameCount)
    && (forall g: nat :: g < p.nextHint && g < p.frameCount ==> Bit(p.words, g))
  }

  /** The case the kernel boots with: the watermark lies inside the map. */
  predicate HintInside(p: Pool) {
    p.nextHint <= p.frameCount
  }

  datatype ScanResult = Found(f: nat) | Exhausted | OutOfBounds

  /** First clear bit of `f..hi`, reading words one bit at a time. */
  function Scan(words: seq<BitWord>, f: nat, hi: nat): (r: ScanResult)
    ensures r.Found? ==> f <= r.f < hi && r.f < 64 * |words| && !Bit(words, r.f)
    ensures r.Found? ==> forall g: nat :: f <= g < r.f ==> Bit(words, g)
    ensures r.Exhausted? ==> (f < hi ==> hi <= 64 * |words|) && forall g: nat :: f <= g < hi ==> Bit(words, g)
    ensures r.OutOfBounds? ==> 64 * |words| < hi && forall g: nat :: f <= g < 64 * |words| ==> Bit(words, g)
    decreases hi - f
  {
    if f >= hi then Exhausted
    else if f / 64 >= |words| then OutOfBounds
    else if !Bit(words, f) then Found(f)
    else Scan(words, f + 1, hi)
  }

  /** The order in which `allocate` visits frames: from the hint up, then wrapped. */
  function Search(p: Pool): ScanResult {
    var upper := Scan(p.words, p.nextHint, p.frameCount);
    if upper.Exhausted? then Scan(p.words, 0, p.nextHint) else upper
  }

  function Taken(p: Pool, f: nat): Pool
    requires f < 64 * |p.words|
  {
    p.(words := SetBit(p.words, f, true), inUse := p.inUse + 1, nextHint := f + 1)
  }

  function Allocate(p: Pool): (Pool, AllocResult) {
    match Search(p)
    case Found(f) => (Taken(p, f), Frame(f))
    case Exhausted => (p, LimitExceeded)
    case OutOfBounds => (p, IndexPanic)
  }

  function Release(p: Pool, f: nat): Pool {
    if f >= p.frameCount || !Bit(p.words, f) then p
    else Pool(SetBit(p.words, f, false), p.frameCount,
              if p.inUse == 0 then 0 else p.inUse - 1,
              if f < p.nextHint then f else p.nextHint)
  }

  /** Hinted allocation is lowest-free-frame allocation: it hands out the lowest
      free frame, changes that bit only, and fails exactly when nothing is free. */
  lemma AllocateIsLowestFree(p: Pool)
    requires Consistent(p)
    ensures var (q, r) := Allocate(p);
            && Consistent(q) && q.frameCount == p.frameCount
            && (r.Frame? <==> exists f :: IsFree(p, f))
            && (r.Frame? ==>
                  && IsFree(p, r.index) && (forall g: nat :: g < r.index ==> !IsFree(p, g))
                  && (forall g: nat :: g < p.frameCount ==> Bit(q.words, g) == (g == r.index || Bit(p.words, g)))
                  && HintInside(q))
            && (!r.Frame? ==> q == p)
  {
    var (q, r) := Allocate(p);
    if r.Frame? {
      assert IsFree(p, r.index);
      CountSetBit(p.words, r.index, true, p.frameCount);
    }
  }

  /** The bitmap is indexed out of bounds exactly when the hint lies past its last word,
      so never with the watermark inside the map. */
  lemma AllocatePanicsExactly(p: Pool)
    requires Consistent(p)
    ensures Allocate(p).1.IndexPanic? <==> p.nextHint > 64 * |p.words|
    ensures HintInside(p) ==> !Allocate(p).1.IndexPanic?
  {
    AllocateIsLowestFree(p);
    if Allocate(p).1.LimitExceeded? {
      assert Scan(p.words, 0, p.nextHint).Exhausted?;
    }
  }

  lemma ReleaseKeepsConsistent(p: Pool, f: nat)
    requires Consistent(p)
    ensures var q := Release(p, f);
            && Consistent(q) && q.frameCount == p.frameCount && (HintInside(p) ==> HintInside(q))
            && (forall g: nat :: g < p.frameCount ==> Bit(q.words, g) == (g != f && Bit(p.words, g)))
            && (f < p.frameCount && Bit(p.words, f) ==> q.inUse == p.inUse - 1)
  {
    if f < p.frameCount && Bit(p.words, f) {
      CountSetBit(p.words, f, false, p.frameCount);
    }
  }

  /** A freed frame that was the lowest candidate is the next one handed out. */
  lemma ReleaseThenAllocate(p: Pool, f: nat)
    requires Consistent(p) && f < p.frameCount && Bit(p.words, f)
    requires forall g: nat :: g < f ==> !IsFree(p, g)
    ensures Allocate(Release(p, f)).1 == Frame(f)
  {
    ReleaseKeepsConsistent(p, f);
    var q := Release(p, f);
    AllocateIsLowestFree(q);
    assert IsFree(q, f);
    forall g: nat | g < f
      ensures !IsFree(q, g)
    {
      assert !IsFree(p, g);
    }
  }

  function FreeCount(p: Pool): int {
    p.frameCount - p.inUse
  }

  lemma {:induction false} CountFull(words: seq<BitWord>, n: nat)
    requires n <= 64 * |words|
    ensures CountSet(words, n) < n <==> exists f: nat :: f < n && !Bit(words, f)
  {
    if n > 0 {
      CountFull(words, n - 1);
    }
  }

  /** The counter tells exactly whether a frame can still be handed out. */
  lemma FreeCountIsExact(p: Pool)
    requires Consistent(p)
    ensures FreeCount(p) >= 0
    ensures FreeCount(p) > 0 <==> exists f :: IsFree(p, f)
  {
    CountFull(p.words, p.frameCount);
    if f: nat :| f < p.frameCount && !Bit(p.words, f) {
      assert IsFree(p, f);
    }
  }

  lemma FreeCountAfter(p: Pool)
    ensures Allocate(p).1.Frame? ==> FreeCount(Allocate(p).0) == FreeCount(p) - 1
  {
  }

  // ---- contiguous runs -----------------------------------------------------

  ghost predicate RunFree(p: Pool, s: nat, n: nat) {
    s + n <= p.frameCount && forall g: nat :: s <= g < s + n ==> !Bit(p.words, g)
  }

  function SetRun(words: seq<BitWord>, s: nat, n: nat): (r: seq<BitWord>)
    requires s + n <= 64 * |words|
    ensures |r| == |words|
    ensures forall g: nat :: g < 64 * |words| ==> Bit(r, g) == (s <= g < s + n || Bit(words, g))
    decreases n
  {
    if n == 0 then words else SetBit(SetRun(words, s, n - 1), s + n - 1, true)
  }

  lemma {:induction false} CountSetRun(p: Pool, s: nat, n: nat)
    requires Shaped(p) && RunFree(p, s, n)
    ensures CountSet(SetRun(p.words, s, n), p.frameCount) == CountSet(p.words, p.frameCount) + n
    decreases n
  {
    if n > 0 {
      CountSetRun(p, s, n - 1);
      CountSetBit(SetRun(p.words, s, n - 1), s + n - 1, true, p.frameCount);
    }
  }

  /** No free run of `n` starts in `lo..=f` when `f` is allocated and less than `n` away. */
  lemma NoRunAcross(p: Pool, f: nat, lo: nat, n: nat)
    requires Shaped(p) && f < p.frameCount && Bit(p.words, f) && f - lo < n
    ensures forall t: nat :: lo <= t <= f ==> !RunFree(p, t, n)
  {
    forall t: nat | lo <= t <= f
      ensures !RunFree(p, t, n)
    {
      if RunFree(p, t, n) {
        assert false;
      }
    }
  }

  /** The lowest free run of `n` frames from `s` on. */
  ghost function RunFrom(p: Pool, s: nat, n: nat): (r: AllocResult)
    ensures !r.IndexPanic?
    ensures r.Frame? ==> s <= r.index && RunFree(p, r.index, n)
    ensures r.Frame? ==> forall t: nat :: s <= t < r.index ==> !RunFree(p, t, n)
    ensures r.LimitExceeded? ==> forall t: nat :: s <= t ==> !RunFree(p, t, n)
    decreases p.frameCount - s
  {
    if s + n > p.frameCount then LimitExceeded
    else if RunFree(p, s, n) then Frame(s)
    else RunFrom(p, s + 1, n)
  }

  /** `allocate_contiguous`: the lowest free run is marked; the hint stays. */
  ghost function AllocateRun(p: Pool, n: nat): (Pool, AllocResult)
    requires Consistent(p)
  {
    var k := if n == 0 then 1 else n;
    var r := RunFrom(p, 0, k);
    (if r.Frame? then p.(words := SetRun(p.words, r.index, k), inUse := p.inUse + k) else p, r)
  }

  /** Only one run is the lowest. */
  lemma LowestRun(p: Pool, s: nat, n: nat, r: AllocResult)
    requires !r.IndexPanic?
    requires r.Frame? ==> s <= r.index && RunFree(p, r.index, n)
    requires r.Frame? ==> forall t: nat :: s <= t < r.index ==> !RunFree(p, t, n)
    requires r.LimitExceeded? ==> forall t: nat :: s <= t ==> !RunFree(p, t, n)
    ensures r == RunFrom(p, s, n)
  {
    hide RunFree;
    var q := RunFrom(p, s, n);
    assert r.Frame? && q.Frame? ==> r.index == q.index;
  }

  lemma TooLong(p: Pool, n: nat)
    requires n > p.frameCount
    ensures RunFrom(p, 0, n) == LimitExceeded
  {
  }

  lemma RunInside(p: Pool, s: nat, n: nat)
    requires RunFree(p, s, n)
    ensures s + n <= p.frameCount
  {
  }

  lemma RunKeepsConsistent(p: Pool, n: nat)
    requires Consistent(p)
    ensures var (q, r) := AllocateRun(p, n);
            && Consistent(q) && q.frameCount == p.frameCount && q.nextHint == p.nextHint && |q.words| == |p.words|
            && (r.Frame? ==> FreeCount(q) == FreeCount(p) - (if n == 0 then 1 else n))
            && (r.Frame? ==> IsFree(p, r.index))
  {
    hide CountSet;
    var k := if n == 0 then 1 else n;
    var r := RunFrom(p, 0, k);
    if r.Frame? {
      CountSetRun(p, r.index, k);
      assert !Bit(p.words, r.index);
    }
  }

  // ---- runs ----------------------------------------------------------------

  datatype Op = Take | TakeRun(n: nat) | Give(f: nat)

  ghost function Run(p: Pool, ops: seq<Op>): (q: Pool)
    requires Consistent(p)
    ensures Consistent(q)
  {
    if ops == [] then p
    else
      var q := Run(p, ops[..|ops| - 1]);
      match ops[|ops| - 1]
      case Take => AllocateIsLowestFree(q); Allocate(q).0
      case TakeRun(n) => RunKeepsConsistent(q, n); AllocateRun(q, n).0
      case Give(f) => GiveLowersHint(q, f); Release(q, f)
  }

  predicate GivesFrame(p: Pool, ops: seq<Op>) {
    exists i :: 0 <= i < |ops| && ops[i].Give? && ops[i].f < p.frameCount
  }

  /** After any run the next allocation is out of bounds if and only if the run started
      with the hint past the bitmap and has freed no frame of the map. */
  lemma {:induction false} PanicsOverRuns(p: Pool, ops: seq<Op>)
    requires Consistent(p)
    ensures var q := Run(p, ops);
            && Consistent(q) && q.frameCount == p.frameCount
            && (Allocate(q).1.IndexPanic? <==> p.nextHint > 64 * |p.words| && !GivesFrame(p, ops))
            && (p.nextHint > 64 * |p.words| && !GivesFrame(p, ops) ==> q == p)
    decreases |ops|
  {
    hide Allocate, AllocateRun, CountSet, Bit, Consistent;
    if ops == [] {
      AllocatePanicsExactly(p);
    } else {
      var front, op := ops[..|ops| - 1], ops[|ops| - 1];
      var q := Run(p, front);
      PanicsOverRuns(p, front);
      assert GivesFrame(p, ops) <==> GivesFrame(p, front) || (op.Give? && op.f < p.frameCount) by {
        assert forall i :: 0 <= i < |front| ==> front[i] == ops[i];
      }
      AllocatePanicsExactly(q);
      AllocateIsLowestFree(q);
      match op {
        case Take => AllocatePanicsExactly(Allocate(q).0);
        case TakeRun(n) =>
          RunKeepsConsistent(q, n);
          AllocatePanicsExactly(AllocateRun(q, n).0);
          NothingFree(q, n);
        case Give(f) => GiveLowersHint(q, f);
      }
    }
  }

  /** With the hint past the bitmap everything is allocated, so no run is found either. */
  lemma NothingFree(p: Pool, n: nat)
    requires Consistent(p)
    ensures p.nextHint > 64 * |p.words| ==> AllocateRun(p, n).0 == p
  {
    RunKeepsConsistent(p, n);
  }

  /** Freeing a frame of the map brings a hint past the map back inside it. */
  lemma GiveLowersHint(p: Pool, f: nat)
    requires Consistent(p)
    ensures var q := Release(p, f);
            && Consistent(q) && q.frameCount == p.frameCount && |q.words| == |p.words|
            && (f >= p.frameCount ==> q == p)
            && (Allocate(q).1.IndexPanic? <==> p.nextHint > 64 * |p.words| && f >= p.frameCount)
  {
    ReleaseKeepsConsistent(p, f);
    AllocatePanicsExactly(Release(p, f));
  }

  // ---- the memory map ------------------------------------------------------

  datatype RegionKind = Usable | FirmwareReserved | LaneReserved | DeviceMmio | Bad

  datatype Region = Region(base: nat, length: nat, kind: RegionKind) {
    /** A 64-bit sum: a region that reaches 2^64 ends at a small address. */
    function End(): nat { (base + length) % WORD_LIMIT }
  }

  function DivCeil(a: nat, b: nat): nat
    requires b > 0
  {
    (a + b - 1) / b
  }

  /** Frame `f` lies wholly between start and end of usable region `r`. */
  predicate Inside(r: Region, f: nat) {
    r.kind.Usable? && r.base <= f * FRAME_SIZE && (f + 1) * FRAME_SIZE <= r.End()
  }

  /** Those are the frames that the region holds if it ends below 2^64; otherwise there are none. */
  lemma InsideExactly(r: Region)
    requires r.kind.Usable? && r.base < WORD_LIMIT && r.length < WORD_LIMIT
    ensures r.base + r.length < WORD_LIMIT ==>
              forall f: nat :: Inside(r, f) <==> r.base <= f * FRAME_SIZE && (f + 1) * FRAME_SIZE <= r.base + r.length
    ensures r.base + r.length >= WORD_LIMIT ==> forall f: nat :: !Inside(r, f)
  {
    if r.base + r.length >= WORD_LIMIT {
      assert r.End() == r.base + r.length - WORD_LIMIT < r.base;
    }
  }

  /** End of the highest usable region. */
  function MaxUsableEnd(regions: seq<Region>): nat {
    if regions == [] then 0
    else
      var m, r := MaxUsableEnd(regions[..|regions| - 1]), regions[|regions| - 1];
      if r.kind.Usable? && m < r.End() then r.End() else m
  }

  /** The bitmap words of a memory map end before the watermark. */
  predicate WatermarkPastBitmap(regions: seq<Region>, reservedBelow: nat) {
    DivCeil(reservedBelow, FRAME_SIZE) > 64 * DivCeil(MaxUsableEnd(regions) / FRAME_SIZE, 64)
  }

  /** No usable memory and one reserved frame: the first allocation is out of bounds. With
      ten frames and a watermark at frame 20, past the map but within its one bitmap word,
      it is not. */
  lemma PanicExample()
    ensures Consistent(Pool([], 0, 0, 1)) && Allocate(Pool([], 0, 0, 1)).1 == IndexPanic
    ensures WatermarkPastBitmap([], FRAME_SIZE)
    ensures !WatermarkPastBitmap([Region(0, 10 * FRAME_SIZE, Usable)], 20 * FRAME_SIZE)
  {
    var tenFrames := Region(0, 10 * FRAME_SIZE, Usable);
    assert [tenFrames][..0] == [];
    assert MaxUsableEnd([tenFrames]) == 10 * FRAME_SIZE;
  }

  lemma InsideIsRange(r: Region, f: nat)
    requires r.kind.Usable?
    ensures Inside(r, f) <==> DivCeil(r.base, FRAME_SIZE) <= f < r.End() / FRAME_SIZE
  {
  }

  lemma BootPanics(p: Pool, regions: seq<Region>, reservedBelow: nat)
    requires Consistent(p) && p.nextHint == DivCeil(reservedBelow, FRAME_SIZE)
    requires p.frameCount == MaxUsableEnd(regions) / FRAME_SIZE
    ensures Allocate(p).1.IndexPanic? <==> WatermarkPastBitmap(regions, reservedBelow)
  {
    AllocatePanicsExactly(p);
  }

  /** The allocator object: the source's `AllocState` under its lock. */
  class FrameAllocator {
    var bitmap: seq<BitWord>
    var frameCount: nat
    var inUse: nat
    var nextHint: nat

    ghost function Value(): Pool
      reads this
    {
      Pool(bitmap, frameCount, inUse, nextHint)
    }

    /** A frame starts free exactly when it lies wholly inside a usable region and
        at or above the watermark. */
    constructor (regions: seq<Region>, reservedBelow: nat)
      ensures Consistent(Value())
      ensures frameCount == MaxUsableEnd(regions) / FRAME_SIZE && nextHint == DivCeil(reservedBelow, FRAME_SIZE)
      ensures Allocate(Value()).1.IndexPanic? <==> WatermarkPastBitmap(regions, reservedBelow)
      ensures forall r :: r in regions && r.kind.Usable? ==> r.End() / FRAME_SIZE <= frameCount
      ensures forall f: nat :: f < frameCount ==>
                (IsFree(Value(), f) <==> reservedBelow <= f * FRAME_SIZE && exists r :: r in regions && Inside(r, f))
    {
      hide Allocate, MaxUsableEnd;
      var maxEnd := HighestEnd(regions);
      var count := maxEnd / FRAME_SIZE;
      var words: seq<BitWord> := seq((count + 63) / 64, _ => seq(64, _ => true));
      var reservedFrame := DivCeil(reservedBelow, FRAME_SIZE);
      for i := 0 to |regions|
        invariant |words| == (count + 63) / 64
        invariant forall g: nat :: count <= g < 64 * |words| ==> Bit(words, g)
        invariant forall g: nat :: g < count ==>
                    (!Bit(words, g) <==> reservedFrame <= g && exists j :: 0 <= j < i && Inside(regions[j], g))
      {
        if regions[i].kind.Usable? {
          words := FreeRegion(words, count, reservedFrame, regions, i);
        }
      }
      var total := 0;
      for f := 0 to count
        invariant total == CountSet(words, f)
      {
        if Bit(words, f) {
          total := total + 1;
        }
      }
      bitmap, frameCount, inUse, nextHint := words, count, total, reservedFrame;
      new;
      BootPanics(Value(), regions, reservedBelow);
      assert forall j :: 0 <= j < |regions| ==> regions[j] in regions;
    }

    static method HighestEnd(regions: seq<Region>) returns (maxEnd: nat)
      ensures maxEnd == MaxUsableEnd(regions)
      ensures forall j :: 0 <= j < |regions| && regions[j].kind.Usable? ==> regions[j].End() <= maxEnd
    {
      maxEnd := 0;
      for i := 0 to |regions|
        invariant forall j :: 0 <= j < i && regions[j].kind.Usable? ==> regions[j].End() <= maxEnd
        invariant maxEnd == MaxUsableEnd(regions[..i])
      {
        assert regions[..i + 1][..i] == regions[..i];
        if regions[i].kind.Usable? && maxEnd < regions[i].End() {
          maxEnd := regions[i].End();
        }
      }
      assert regions[..|regions|] == regions;
    }

    /** Clears the bits of the frames wholly inside `regions[i]` at or above the watermark. */
    static method FreeRegion(before: seq<BitWord>, count: nat, reservedFrame: nat, regions: seq<Region>, i: nat)
      returns (words: seq<BitWord>)
      requires |before| == (count + 63) / 64
      requires i < |regions| && regions[i].kind.Usable? && regions[i].End() / FRAME_SIZE <= count
      ensures |words| == |before|
      ensures forall g: nat :: g < 64 * |words| ==>
                (!Bit(words, g) <==> !Bit(before, g) || (reservedFrame <= g && Inside(regions[i], g)))
    {
      words := before;
      var first := DivCeil(regions[i].base, FRAME_SIZE);
      var last := regions[i].End() / FRAME_SIZE;
      var f := first;
      while f < last
        invariant |words| == |before|
        invariant first <= f
        invariant forall g: nat :: g < 64 * |words| ==>
                    (!Bit(words, g) <==> !Bit(before, g) || (reservedFrame <= g && first <= g < f && g < last))
      {
        if f >= reservedFrame {
          words := SetBit(words, f, false);
        }
        f := f + 1;
      }
      forall g: nat {
        InsideIsRange(regions[i], g);
      }
    }

    method AllocateFrame() returns (r: AllocResult)
      modifies this
      ensures (Value(), r) == Allocate(old(Value()))
    {
      var f := nextHint;
      while f < frameCount
        invariant nextHint <= f
        invariant Scan(bitmap, nextHint, frameCount) == Scan(bitmap, f, frameCount)
      {
        if f / 64 >= |bitmap| {
          return IndexPanic;
        }
        if !Bit(bitmap, f) {
          bitmap, inUse, nextHint := SetBit(bitmap, f, true), inUse + 1, f + 1;
          return Frame(f);
        }
        f := f + 1;
      }
      f := 0;
      while f < nextHint
        invariant Scan(bitmap, 0, nextHint) == Scan(bitmap, f, nextHint)
      {
        if f / 64 >= |bitmap| {
          return IndexPanic;
        }
        if !Bit(bitmap, f) {
          bitmap, inUse, nextHint := SetBit(bitmap, f, true), inUse + 1, f + 1;
          return Frame(f);
        }
        f := f + 1;
      }
      return LimitExceeded;
    }

    method ReleaseFrame(f: nat)
      modifies this
      ensures Value() == Release(old(Value()), f)
    {
      if f >= frameCount {
        return;
      }
      if Bit(bitmap, f) {
        bitmap := SetBit(bitmap, f, false);
        inUse := if inUse == 0 then 0 else inUse - 1;
        if f < nextHint {
          nextHint := f;
        }
      }
    }

    method MarkRun(s: nat, n: nat)
      requires s + n <= 64 * |bitmap|
      modifies this`bitmap
      ensures bitmap == SetRun(old(bitmap), s, n)
    {
      for g := s to s + n
        invariant |bitmap| == |old(bitmap)|
        invariant bitmap == SetRun(old(bitmap), s, g - s)
      {
        bitmap := SetBit(bitmap, g, true);
      }
    }

    /** The scan of `allocate_contiguous`: the first run of `n` clear bits. */
    method FindRun(n: nat) returns (r: AllocResult)
      requires Shaped(Value()) && n > 0
      ensures match r
              case Frame(s) =>
                RunFree(Value(), s, n) && forall t: nat :: t < s ==> !RunFree(Value(), t, n)
              case LimitExceeded => forall t: nat :: !RunFree(Value(), t, n)
              case IndexPanic => false
    {
      var runStart, runLen := 0, 0;
      ghost var lo := 0;
      for f := 0 to frameCount
        invariant runLen < n && lo + runLen == f
        invariant runLen > 0 ==> runStart == lo
        invariant forall g: nat :: lo <= g < f ==> !Bit(bitmap, g)
        invariant forall t: nat :: t < lo ==> !RunFree(Value(), t, n)
      {
        if !Bit(bitmap, f) {
          if runLen == 0 {
            runStart := f;
          }
          runLen := runLen + 1;
          if runLen == n {
            return Frame(runStart);
          }
        } else {
          NoRunAcross(Value(), f, lo, n);
          runLen, lo := 0, f + 1;
        }
      }
      return LimitExceeded;
    }

    /** The lowest free run of `n` frames (`n == 0` counts as 1), or an error
        exactly when there is none. */
    method AllocateContiguous(n: nat) returns (r: AllocResult)
      requires Consistent(Value())
      modifies this
      ensures Consistent(Value()) && (Value(), r) == AllocateRun(old(Value()), n)
    {
      hide RunFree, CountSet, SetRun, Bit;
      RunKeepsConsistent(Value(), n);
      var k := if n == 0 then 1 else n;
      if k > frameCount {
        TooLong(Value(), k);
        return LimitExceeded;
      }
      r := FindRun(k);
      LowestRun(Value(), 0, k, r);
      if r.Frame? {
        RunInside(Value(), r.index, k);
        MarkRun(r.index, k);
        inUse := inUse + k;
      }
    }
  }
}
