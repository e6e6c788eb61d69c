/** Loading an application image (kernel-image/src/loader.rs): every segment byte
    ends up at its virtual address, the rest of each page is zero, and nothing that
    was mapped or allocated before changes. */
module Loader {
  import opened Division
  import opened LittleEndian
  import opened PageEncoding
  import opened Addressing
  import opened FramePool
  import opened PageTables
  import opened Mapping
  import opened Ranges
  import opened Boundaries
  import opened Demand
  import opened Options

  // ---- bytes of a frame ----------------------------------------------------

  /** Byte `k` of a frame of 512 little-endian words. */
  function ByteAt(p: Page, k: nat): Byte
    requires k < FRAME_SIZE
  {
    Encode(p[k / 8], 8)[k % 8]
  }

  function ByteOf(mem: Memory, phys: nat): Byte {
    if phys / FRAME_SIZE < |mem| then ByteAt(mem[phys / FRAME_SIZE], phys % FRAME_SIZE) else 0
  }

  function WordFrom(bytes: seq<Byte>): Word
    requires |bytes| == 8
  {
    PowersOf256();
    Decode(bytes)
  }

  /** `data` copied over the page's bytes from offset `off`. */
  function Overlaid(p: Page, off: nat, data: seq<Byte>, k: nat): Byte
    requires off + |data| <= FRAME_SIZE && k < FRAME_SIZE
  {
    if off <= k < off + |data| then data[k - off] else ByteAt(p, k)
  }

  /** The eight bytes of word `i` after the copy. */
  function WordBytes(p: Page, off: nat, data: seq<Byte>, i: nat): (w: seq<Byte>)
    requires off + |data| <= FRAME_SIZE && i < ENTRIES
    ensures |w| == 8 && forall j: nat :: j < 8 ==> w[j] == Overlaid(p, off, data, 8 * i + j)
  {
    seq<Byte>(8, j requires 0 <= j < 8 => Overlaid(p, off, data, 8 * i + j))
  }

  function WriteBytes(p: Page, off: nat, data: seq<Byte>): Page
    requires off + |data| <= FRAME_SIZE
  {
    seq<Word>(ENTRIES, i requires 0 <= i < ENTRIES => WordFrom(WordBytes(p, off, data, i)))
  }

  /** Reading back a copied byte, and the bytes around it. */
  lemma WrittenByte(p: Page, off: nat, data: seq<Byte>, k: nat)
    requires off + |data| <= FRAME_SIZE && k < FRAME_SIZE
    ensures ByteAt(WriteBytes(p, off, data), k) == Overlaid(p, off, data, k)
  {
    hide Encode, Decode, Overlaid;
    var i := k / 8;
    assert WriteBytes(p, off, data)[i] == WordFrom(WordBytes(p, off, data, i));
    EncodeDecode(WordBytes(p, off, data, i));
    assert WordBytes(p, off, data, i)[k % 8] == Overlaid(p, off, data, 8 * i + k % 8);
  }

  lemma ZeroByte(k: nat)
    requires k < FRAME_SIZE
    ensures ByteAt(ZeroPage(), k) == 0
  {
    EncodeZero(8);
  }

  // ---- images --------------------------------------------------------------

  /** The last page of the 64-bit address space. */
  const LAST_PAGE: nat := WORD_LIMIT - FRAME_SIZE

  /** A segment descriptor with its body, the `file_size` bytes of the image. */
  datatype Descriptor = Descriptor(vaddr: nat, memSize: nat, flags: nat, body: seq<Byte>) {
    function Perms(): Permissions {
      Permissions(flags % 2 == 1, (flags / 2) % 2 == 1, (flags / 4) % 2 == 1, true, false)
    }
    function FirstPage(): nat { vaddr - vaddr % FRAME_SIZE }
    function PageCount(): nat { DivCeil(vaddr + memSize - FirstPage(), FRAME_SIZE) }
    function PageVirt(j: nat): nat { FirstPage() + j * FRAME_SIZE }
    predicate EndFits() { vaddr + memSize < WORD_LIMIT }
  }

  /** What parsing an image lets through: a 64-bit address and no more file bytes than memory. */
  type Segment = d: Descriptor | d.vaddr < WORD_LIMIT && |d.body| <= d.memSize witness Descriptor(0, 0, 0, [])

  datatype Image = Image(segments: seq<Segment>, entry: nat)

  datatype LoadResult = Loaded(value: nat) | SegmentEndOverflow | NoFrameLeft(why: AllocResult)
                      | PageFailed(how: MapResult)

  /** The file bytes of `seg` that land in the page at `pv`: from `CopyLo` up to `CopyHi`. */
  function CopyLo(seg: Segment, pv: nat): nat {
    if seg.vaddr > pv then seg.vaddr else pv
  }

  function CopyHi(seg: Segment, pv: nat): nat {
    if seg.vaddr + |seg.body| < PageEnd(pv) then seg.vaddr + |seg.body| else PageEnd(pv)
  }

  /** A 64-bit sum: the last page ends at zero. */
  function PageEnd(pv: nat): nat {
    (pv + FRAME_SIZE) % WORD_LIMIT
  }

  function FileBytes(seg: Segment, pv: nat): (data: seq<Byte>)
    requires CopyHi(seg, pv) > CopyLo(seg, pv)
    ensures |data| == CopyHi(seg, pv) - CopyLo(seg, pv)
    ensures forall i: nat :: i < |data| ==> data[i] == seg.body[CopyLo(seg, pv) - seg.vaddr + i]
  {
    seg.body[CopyLo(seg, pv) - seg.vaddr..CopyHi(seg, pv) - seg.vaddr]
  }

  /** Those bytes placed on a zeroed page. */
  function PageContent(seg: Segment, pv: nat): Page {
    if CopyHi(seg, pv) > CopyLo(seg, pv) then WriteBytes(ZeroPage(), CopyLo(seg, pv) - pv, FileBytes(seg, pv))
    else ZeroPage()
  }

  /** The file bytes of the page, except that nothing is copied into the last page. */
  lemma PageContentByte(seg: Segment, pv: nat, o: nat)
    requires o < FRAME_SIZE && pv <= LAST_PAGE
    ensures ByteAt(PageContent(seg, pv), o) ==
            if seg.vaddr <= pv + o < seg.vaddr + |seg.body| && pv < LAST_PAGE then seg.body[pv + o - seg.vaddr] else 0
  {
    hide WriteBytes, ByteAt, ZeroPage, FileBytes;
    ZeroByte(o);
    assert PageEnd(pv) == if pv < LAST_PAGE then pv + FRAME_SIZE else 0;
    if CopyHi(seg, pv) > CopyLo(seg, pv) {
      WrittenByte(ZeroPage(), CopyLo(seg, pv) - pv, FileBytes(seg, pv), o);
    }
  }

  // ---- loading -------------------------------------------------------------

  /** A fresh frame holding `content`, mapped at `v`. */
  function LoadPage(E: Encoder, m: Machine, root: nat, v: nat, perms: Permissions, content: Page)
    : (Machine, LoadResult)
  {
    var a := AllocateZeroed(m);
    if !a.1.Frame? then (a.0, NoFrameLeft(a.1))
    else
      var r := Map(E, Machine(SetPage(a.0.mem, a.1.index, content), a.0.pool), root, v, a.1.index, perms);
      (r.0, if r.1.Mapped? then Loaded(v) else PageFailed(r.1))
  }

  function LoadSegmentFrom(E: Encoder, m: Machine, root: nat, seg: Segment, p: nat): (Machine, LoadResult)
    decreases seg.PageCount() - p
  {
    if p >= seg.PageCount() then (m, Loaded(seg.vaddr))
    else
      var r := LoadPage(E, m, root, seg.PageVirt(p), seg.Perms(), PageContent(seg, seg.PageVirt(p)));
      if r.1.Loaded? then LoadSegmentFrom(E, r.0, root, seg, p + 1) else r
  }

  function LoadFrom(E: Encoder, m: Machine, root: nat, image: Image, i: nat): (Machine, LoadResult)
    decreases |image.segments| - i
  {
    if i >= |image.segments| then (m, Loaded(image.entry))
    else if !image.segments[i].EndFits() then (m, SegmentEndOverflow)
    else
      var r := LoadSegmentFrom(E, m, root, image.segments[i], 0);
      if r.1.Loaded? then LoadFrom(E, r.0, root, image, i + 1) else r
  }

  function LoadAppImage(E: Encoder, m: Machine, root: nat, image: Image): (Machine, LoadResult) {
    LoadFrom(E, m, root, image, 0)
  }

  function StackFrom(E: Encoder, m: Machine, root: nat, base: nat, pages: nat, p: nat): (Machine, LoadResult)
    decreases pages - p
  {
    if p >= pages then (m, Loaded(StackTop(base, pages)))
    else
      var r := LoadPage(E, m, root, base + p * FRAME_SIZE, USER_RW, ZeroPage());
      if r.1.Loaded? then StackFrom(E, r.0, root, base, pages, p + 1) else r
  }

  /** A 64-bit sum, rounded down to 16 bytes. */
  function StackTop(base: nat, pages: nat): nat {
    (base + pages * FRAME_SIZE) % WORD_LIMIT / 16 * 16
  }

  function MapUserStack(E: Encoder, m: Machine, root: nat, base: nat, pages: nat): (Machine, LoadResult) {
    StackFrom(E, m, root, base, pages, 0)
  }

  // ---- what loading keeps --------------------------------------------------

  /** Existing mappings stay, and allocated frames that are no tables keep their
      contents and never become tables. */
  ghost predicate Undisturbed(E: Encoder, m: Machine, tree: Tree, m': Machine, tree': Tree, root: nat) {
    && |m'.mem| == |m.mem| && m'.pool.frameCount == m.pool.frameCount
    && (forall q: nat :: LookupAt(E, m.mem, root, q).Some? ==>
          LookupAt(E, m'.mem, root, q) == LookupAt(E, m.mem, root, q))
    && (forall f: nat :: f < m.pool.frameCount && Bit(m.pool.words, f) && f !in tree ==>
          Bit(m'.pool.words, f) && f !in tree' && f < |m.mem| && m'.mem[f] == m.mem[f])
  }

  lemma UndisturbedTwice(E: Encoder, a: Machine, ta: Tree, b: Machine, tb: Tree, c: Machine, tc: Tree, root: nat)
    requires Undisturbed(E, a, ta, b, tb, root) && Undisturbed(E, b, tb, c, tc, root)
    ensures Undisturbed(E, a, ta, c, tc, root)
  {
    hide LookupAt;
  }

  /** The page at `v` is mapped with `perms` onto an allocated frame, no table, holding `content`. */
  ghost predicate PageHolds(E: Encoder, m: Machine, tree: Tree, root: nat, v: nat, perms: Permissions, content: Page) {
    exists f: nat :: PageIs(E, m.mem, root, v, f, perms) && f < m.pool.frameCount && f < |m.mem|
                     && Bit(m.pool.words, f) && f !in tree && m.mem[f] == content
  }

  lemma PageHoldsKept(E: Encoder, m: Machine, tree: Tree, m': Machine, tree': Tree, root: nat, v: nat,
                      perms: Permissions, content: Page)
    requires Undisturbed(E, m, tree, m', tree', root) && PageHolds(E, m, tree, root, v, perms, content)
    ensures PageHolds(E, m', tree', root, v, perms, content)
  {
    hide LookupAt;
    var f: nat :| PageIs(E, m.mem, root, v, f, perms) && f < m.pool.frameCount && f < |m.mem|
                     && Bit(m.pool.words, f) && f !in tree && m.mem[f] == content;
    assert PageIs(E, m'.mem, root, v, f, perms);
  }

  /** The state in which a fresh frame was taken and filled: the space is as before. */
  ghost predicate Filled(E: Encoder, m: Machine, root: nat, tree: Tree, m1: Machine, f: nat, content: Page) {
    && SpaceOk(E, m1, root, tree) && IsFree(m.pool, f) && f !in tree && f < |m.mem| && f < FRAME_LIMIT
    && |m1.mem| == |m.mem| && m1.pool.frameCount == m.pool.frameCount && m1.mem[f] == content
    && Bit(m1.pool.words, f)
    && (forall g: nat :: g < m.pool.frameCount && Bit(m.pool.words, g) ==> Bit(m1.pool.words, g))
    && (forall g: nat :: g < |m.mem| && g != f ==> m1.mem[g] == m.mem[g])
    && (forall q: nat :: LookupAt(E, m1.mem, root, q) == LookupAt(E, m.mem, root, q))
  }

  lemma FreshFrame(E: Encoder, m: Machine, root: nat, tree: Tree, content: Page)
    requires SpaceOk(E, m, root, tree) && AllocateZeroed(m).1.Frame?
    ensures var (m1, a) := AllocateZeroed(m);
            Filled(E, m, root, tree, Machine(SetPage(m1.mem, a.index, content), m1.pool), a.index, content)
  {
    hide Lookup, LookupAt, Lawful, Allocate, Consistent;
    AllocateIsLowestFree(m.pool);
    var (m0, a) := AllocateZeroed(m);
    ForeignSpace(E, m.mem, SetPage(m0.mem, a.index, content), root, tree);
  }

  lemma MapUndisturbs(E: Encoder, m: Machine, root: nat, tree: Tree, m1: Machine, f: nat, content: Page,
                      v: nat, perms: Permissions, m': Machine, tree': Tree, done: bool)
    requires Filled(E, m, root, tree, m1, f, content) && Grown(m1, tree, m', tree') && Lawful(E)
    requires OnlyNear(E, m1.mem, m'.mem, root, v, Hit(E.encodeLeaf(f, perms), LEVELS - 1), done)
    requires done ==> LookupAt(E, m1.mem, root, v).None? && v % FRAME_SIZE == 0
    ensures Undisturbed(E, m, tree, m', tree', root)
    ensures done ==> PageHolds(E, m', tree', root, v, perms, content)
  {
    hide Lookup, Consistent, Lawful;
    if done {
      NearIsUnmapped(E, m1.mem, root, v);
      NewPageIs(E, m1.mem, m'.mem, root, v, f, perms);
    }
  }

  lemma LoadPageCorrect(E: Encoder, m: Machine, root: nat, tree: Tree, v: nat, perms: Permissions, content: Page)
    returns (tree': Tree)
    requires SpaceOk(E, m, root, tree)
    ensures var (m', r) := LoadPage(E, m, root, v, perms, content);
            && SpaceOk(E, m', root, tree') && Undisturbed(E, m, tree, m', tree', root)
            && (r.Loaded? ==> PageHolds(E, m', tree', root, v, perms, content))
  {
    hide Lookup, LookupAt, Wf, Map, Lawful, PageIs;
    tree' := tree;
    var a := AllocateZeroed(m);
    if a.1.Frame? {
      var f := a.1.index;
      var m1 := Machine(SetPage(a.0.mem, f, content), a.0.pool);
      FreshFrame(E, m, root, tree, content);
      tree' := MapCorrect(E, m1, root, tree, v, f, perms);
      var (m', r) := Map(E, m1, root, v, f, perms);
      MapUndisturbs(E, m, root, tree, m1, f, content, v, perms, m', tree', r.Mapped?);
    } else {
      AllocateIsLowestFree(m.pool);
    }
  }

  // ---- segments and images -------------------------------------------------

  /** The first `n` pages of `seg` hold its content. */
  ghost predicate SegmentHolds(E: Encoder, m: Machine, tree: Tree, root: nat, seg: Segment, n: nat) {
    forall j: nat :: j < n ==>
      PageHolds(E, m, tree, root, seg.PageVirt(j), seg.Perms(), PageContent(seg, seg.PageVirt(j)))
  }

  lemma SegmentHoldsKept(E: Encoder, m: Machine, tree: Tree, m': Machine, tree': Tree, root: nat, seg: Segment, n: nat)
    requires Undisturbed(E, m, tree, m', tree', root) && SegmentHolds(E, m, tree, root, seg, n)
    ensures SegmentHolds(E, m', tree', root, seg, n)
  {
    hide PageHolds, Undisturbed, PageContent;
    forall j: nat | j < n
      ensures PageHolds(E, m', tree', root, seg.PageVirt(j), seg.Perms(), PageContent(seg, seg.PageVirt(j)))
    {
      PageHoldsKept(E, m, tree, m', tree', root, seg.PageVirt(j), seg.Perms(), PageContent(seg, seg.PageVirt(j)));
    }
  }

  lemma {:induction false} LoadSegmentCorrect(E: Encoder, m: Machine, root: nat, tree: Tree, seg: Segment, p: nat)
    returns (tree': Tree)
    requires SpaceOk(E, m, root, tree) && SegmentHolds(E, m, tree, root, seg, p) && p <= seg.PageCount()
    ensures var (m', r) := LoadSegmentFrom(E, m, root, seg, p);
            && SpaceOk(E, m', root, tree') && Undisturbed(E, m, tree, m', tree', root)
            && (r.Loaded? ==> SegmentHolds(E, m', tree', root, seg, seg.PageCount()))
    decreases seg.PageCount() - p
  {
    hide SpaceOk, PageHolds, PageContent, LoadPage, LookupAt;
    tree' := tree;
    if p < seg.PageCount() {
      var v := seg.PageVirt(p);
      var (m1, r) := LoadPage(E, m, root, v, seg.Perms(), PageContent(seg, v));
      var tree1 := LoadPageCorrect(E, m, root, tree, v, seg.Perms(), PageContent(seg, v));
      tree' := tree1;
      if r.Loaded? {
        SegmentHoldsKept(E, m, tree, m1, tree1, root, seg, p);
        tree' := LoadSegmentCorrect(E, m1, root, tree1, seg, p + 1);
        UndisturbedTwice(E, m, tree, m1, tree1, LoadSegmentFrom(E, m1, root, seg, p + 1).0, tree', root);
      }
    } else {
      UndisturbedSame(E, m, root, tree);
    }
  }

  lemma UndisturbedSame(E: Encoder, m: Machine, root: nat, tree: Tree)
    requires SpaceOk(E, m, root, tree)
    ensures Undisturbed(E, m, tree, m, tree, root)
  {
  }

  ghost predicate ImageHolds(E: Encoder, m: Machine, tree: Tree, root: nat, image: Image, n: nat)
    requires n <= |image.segments|
  {
    forall i :: 0 <= i < n ==>
      && image.segments[i].EndFits()
      && SegmentHolds(E, m, tree, root, image.segments[i], image.segments[i].PageCount())
  }

  lemma {:induction false} LoadFromCorrect(E: Encoder, m: Machine, root: nat, tree: Tree, image: Image, i: nat)
    returns (tree': Tree)
    requires i <= |image.segments| && SpaceOk(E, m, root, tree) && ImageHolds(E, m, tree, root, image, i)
    ensures var (m', r) := LoadFrom(E, m, root, image, i);
            && SpaceOk(E, m', root, tree') && Undisturbed(E, m, tree, m', tree', root)
            && (r.Loaded? ==> r.value == image.entry && ImageHolds(E, m', tree', root, image, |image.segments|))
    decreases |image.segments| - i
  {
    hide SpaceOk, SegmentHolds, LoadSegmentFrom, Undisturbed;
    tree' := tree;
    UndisturbedSame(E, m, root, tree);
    if i < |image.segments| && image.segments[i].EndFits() {
      var seg := image.segments[i];
      assert SegmentHolds(E, m, tree, root, seg, 0) by { NoPages(E, m, tree, root, seg); }
      var (m1, r) := LoadSegmentFrom(E, m, root, seg, 0);
      var tree1 := LoadSegmentCorrect(E, m, root, tree, seg, 0);
      tree' := tree1;
      if r.Loaded? {
        forall k | 0 <= k < i
          ensures SegmentHolds(E, m1, tree1, root, image.segments[k], image.segments[k].PageCount())
        {
          SegmentHoldsKept(E, m, tree, m1, tree1, root, image.segments[k], image.segments[k].PageCount());
        }
        tree' := LoadFromCorrect(E, m1, root, tree1, image, i + 1);
        UndisturbedTwice(E, m, tree, m1, tree1, LoadFrom(E, m1, root, image, i + 1).0, tree', root);
      }
    }
  }

  lemma NoPages(E: Encoder, m: Machine, tree: Tree, root: nat, seg: Segment)
    ensures SegmentHolds(E, m, tree, root, seg, 0)
  {
  }

  // ---- main results --------------------------------------------------------

  /** A held page shows its content at every address. */
  lemma PageHoldsByte(E: Encoder, m: Machine, tree: Tree, root: nat, v: nat, perms: Permissions, content: Page, o: nat)
    requires Lawful(E) && PageHolds(E, m, tree, root, v, perms, content) && o < FRAME_SIZE
    ensures var x := Translate(E, m.mem, root, v + o);
            x.Some? && ByteOf(m.mem, x.value) == ByteAt(content, o)
  {
    hide LookupAt, Translate, ByteAt;
    var f: nat :| PageIs(E, m.mem, root, v, f, perms) && f < m.pool.frameCount && f < |m.mem|
                     && Bit(m.pool.words, f) && f !in tree && m.mem[f] == content;
    PageIsTranslates(E, m.mem, root, v, f, perms, o);
    DivMod(f * FRAME_SIZE + o, FRAME_SIZE, f, o);
  }

  /** The page and offset of the `k`-th byte of a segment. */
  lemma SegmentByte(seg: Segment, k: nat) returns (j: nat, o: nat)
    requires k < seg.memSize
    ensures j < seg.PageCount() && o < FRAME_SIZE && seg.PageVirt(j) + o == seg.vaddr + k
  {
    var d := seg.vaddr % FRAME_SIZE + k;
    j, o := d / FRAME_SIZE, d % FRAME_SIZE;
    assert seg.vaddr + seg.memSize - seg.FirstPage() == seg.vaddr % FRAME_SIZE + seg.memSize;
    DivMod(d, FRAME_SIZE, j, o);
    PageWithin(d, seg.vaddr % FRAME_SIZE + seg.memSize);
  }

  lemma PageWithin(d: nat, n: nat)
    requires d < n
    ensures d / FRAME_SIZE < DivCeil(n, FRAME_SIZE)
  {
  }

  /** The byte at virtual address `v`, which must be mapped. */
  predicate Reads(E: Encoder, m: Machine, root: nat, v: nat, byte: Byte) {
    var x := Translate(E, m.mem, root, v);
    x.Some? && ByteOf(m.mem, x.value) == byte
  }

  /** After a successful load, the byte at virtual address `vaddr + k` of every segment
      is the `k`-th file byte, or zero past the file bytes, for any alignment; except that
      the last page of the address space reads as zero. */
  lemma LoadedBytes(E: Encoder, m: Machine, root: nat, tree: Tree, image: Image, i: nat, k: nat)
    requires SpaceOk(E, m, root, tree) && i < |image.segments| && k < image.segments[i].memSize
    requires LoadAppImage(E, m, root, image).1.Loaded?
    ensures var seg := image.segments[i];
            && seg.EndFits()
            && Reads(E, LoadAppImage(E, m, root, image).0, root, seg.vaddr + k,
                     if k < |seg.body| && seg.vaddr + k < LAST_PAGE then seg.body[k] else 0)
  {
    hide SpaceOk, LoadFrom, Translate, ByteOf, Undisturbed, Reads;
    var tree' := LoadFromCorrect(E, m, root, tree, image, 0);
    LawfulSpace(E, m, root, tree);
    var m' := LoadAppImage(E, m, root, image).0;
    var seg := image.segments[i];
    assert SegmentHolds(E, m', tree', root, seg, seg.PageCount());
    ShownByte(E, m', tree', root, seg, k);
  }

  /** Byte `k` of the segment reads as the image says: file bytes, then zeros. */
  predicate RightAt(E: Encoder, m: Machine, root: nat, seg: Segment, k: nat) {
    Reads(E, m, root, seg.vaddr + k, if k < |seg.body| then seg.body[k] else 0)
  }

  ghost predicate LoadedRight(E: Encoder, m: Machine, root: nat, seg: Segment) {
    forall k: nat :: k < seg.memSize ==> RightAt(E, m, root, seg, k)
  }

  /** Byte `k` does not belong into the last page of the address space, or is zero. */
  predicate BlankAt(seg: Segment, k: nat) {
    k < |seg.body| && seg.vaddr + k >= LAST_PAGE ==> seg.body[k] == 0
  }

  ghost predicate LastPageBlank(seg: Segment) {
    forall k: nat :: k < seg.memSize ==> BlankAt(seg, k)
  }

  /** A successful load is right about a segment exactly when nothing but zeros belongs
      into the last page; so in particular when the file bytes end before it. */
  lemma LoadedExactly(E: Encoder, m: Machine, root: nat, tree: Tree, image: Image, i: nat)
    requires SpaceOk(E, m, root, tree) && i < |image.segments| && LoadAppImage(E, m, root, image).1.Loaded?
    ensures var seg := image.segments[i];
            && (LoadedRight(E, LoadAppImage(E, m, root, image).0, root, seg) <==> LastPageBlank(seg))
            && (seg.vaddr + |seg.body| <= LAST_PAGE ==> LastPageBlank(seg))
  {
    hide SpaceOk, LoadAppImage, Reads;
    var m' := LoadAppImage(E, m, root, image).0;
    var seg := image.segments[i];
    forall k: nat | k < seg.memSize
      ensures RightAt(E, m', root, seg, k) <==> BlankAt(seg, k)
    {
      LoadedBytes(E, m, root, tree, image, i, k);
      ReadsOne(E, m', root, seg.vaddr + k);
    }
  }

  lemma ReadsOne(E: Encoder, m: Machine, root: nat, v: nat)
    ensures forall a, b :: Reads(E, m, root, v, a) && Reads(E, m, root, v, b) ==> a == b
  {
  }

  lemma LawfulSpace(E: Encoder, m: Machine, root: nat, tree: Tree)
    requires SpaceOk(E, m, root, tree)
    ensures Lawful(E)
  {
  }

  lemma ShownByte(E: Encoder, m: Machine, tree: Tree, root: nat, seg: Segment, k: nat)
    requires Lawful(E) && SegmentHolds(E, m, tree, root, seg, seg.PageCount()) && k < seg.memSize && seg.EndFits()
    ensures Reads(E, m, root, seg.vaddr + k, if k < |seg.body| && seg.vaddr + k < LAST_PAGE then seg.body[k] else 0)
  {
    hide Translate, ByteOf, ByteAt, PageHolds, PageContent, Lawful;
    var j, o := SegmentByte(seg, k);
    var pv := seg.PageVirt(j);
    AlignedBelow(seg, j, pv);
    PageHoldsByte(E, m, tree, root, pv, seg.Perms(), PageContent(seg, pv), o);
    PageContentByte(seg, pv, o);
  }

  /** Pages are aligned, so one that starts in the address space ends there. */
  lemma AlignedBelow(seg: Segment, j: nat, pv: nat)
    requires pv == seg.PageVirt(j) && pv < WORD_LIMIT
    ensures pv <= LAST_PAGE
  {
    assert pv == (seg.vaddr / FRAME_SIZE + j) * FRAME_SIZE;
  }

  /** Loading disturbs nothing: every address mapped before translates as before, and
      every allocated frame that is no page table keeps its bytes. */
  lemma LoadDisturbsNothing(E: Encoder, m: Machine, root: nat, tree: Tree, image: Image)
    returns (tree': Tree)
    requires SpaceOk(E, m, root, tree)
    ensures var (m', r) := LoadAppImage(E, m, root, image);
            && SpaceOk(E, m', root, tree') && Undisturbed(E, m, tree, m', tree', root)
            && (r.Loaded? ==> r.value == image.entry)
  {
    hide SpaceOk, LoadFrom, Undisturbed;
    tree' := LoadFromCorrect(E, m, root, tree, image, 0);
  }

  lemma TopSegmentPage()
    ensures TopSegment().PageCount() == 1 && TopSegment().PageVirt(0) == LAST_PAGE && TopSegment().EndFits()
  {
  }

  /** One page at the top of the address space: where it can be mapped the load succeeds, and
      the byte 7 the image puts there reads as zero. */
  lemma LastPageExample(E: Encoder, m: Machine, root: nat, tree: Tree)
    requires SpaceOk(E, m, root, tree) && LookupAt(E, m.mem, root, LAST_PAGE).None?
    requires MissingTables(E, m.mem, root, LAST_PAGE) < FreeCount(m.pool)
    ensures var image := Image([TopSegment()], LAST_PAGE);
            var (m', r) := LoadAppImage(E, m, root, image);
            r == Loaded(LAST_PAGE) && Reads(E, m', root, LAST_PAGE, 0) && !LoadedRight(E, m', root, TopSegment())
  {
    hide SpaceOk, LoadPage, Reads, PageContent, LookupAt, MissingTables;
    var seg, image := TopSegment(), Image([TopSegment()], LAST_PAGE);
    TopSegmentPage();
    PageLoads(E, m, root, tree, LAST_PAGE, seg.Perms(), PageContent(seg, LAST_PAGE));
    var (m1, r) := LoadPage(E, m, root, LAST_PAGE, seg.Perms(), PageContent(seg, LAST_PAGE));
    assert LoadSegmentFrom(E, m, root, seg, 0) == LoadSegmentFrom(E, m1, root, seg, 1) == (m1, Loaded(seg.vaddr));
    assert LoadFrom(E, m, root, image, 0) == LoadFrom(E, m1, root, image, 1) == (m1, Loaded(LAST_PAGE));
    LoadedBytes(E, m, root, tree, image, 0, 0);
    LoadedExactly(E, m, root, tree, image, 0);
    assert !BlankAt(seg, 0);
  }

  function TopSegment(): Segment {
    Descriptor(LAST_PAGE, 100, 1, [7])
  }

  /** A page is loaded exactly when it is aligned and unmapped and there are frames for it
      and the tables it lacks. */
  lemma PageLoads(E: Encoder, m: Machine, root: nat, tree: Tree, v: nat, perms: Permissions, content: Page)
    requires SpaceOk(E, m, root, tree)
    ensures LoadPage(E, m, root, v, perms, content).1.Loaded? <==>
              && v % FRAME_SIZE == 0 && LookupAt(E, m.mem, root, v).None?
              && MissingTables(E, m.mem, root, v) < FreeCount(m.pool)
  {
    hide Lookup, LookupAt, Wf, Map, Lawful, Missing, Consistent;
    AllocateIsLowestFree(m.pool);
    FreeCountIsExact(m.pool);
    FreeCountAfter(m.pool);
    var a := AllocateZeroed(m);
    if a.1.Frame? {
      var m1 := Machine(SetPage(a.0.mem, a.1.index, content), a.0.pool);
      FreshFrame(E, m, root, tree, content);
      SameMissing(E, m.mem, m1.mem, root, tree, v);
      var tree' := MapCorrect(E, m1, root, tree, v, a.1.index, perms);
    }
  }

  // ---- which addresses are mapped ------------------------------------------

  /** `q` lies on a page of `seg` from the `p`-th on. */
  ghost predicate OnSegment(seg: Segment, p: nat, q: nat) {
    exists j: nat {:trigger seg.PageVirt(j)} :: p <= j < seg.PageCount() && PageOf(seg.PageVirt(j)) == PageOf(q)
  }

  /** `q` lies on a page of a segment from the `i`-th on. */
  ghost predicate OnImage(image: Image, i: nat, q: nat) {
    exists k: nat :: i <= k < |image.segments| && OnSegment(image.segments[k], 0, q)
  }

  predicate IsMapped(E: Encoder, mem: Memory, root: nat, q: nat) {
    LookupAt(E, mem, root, q).Some?
  }

  lemma LoadPageMaps(E: Encoder, m: Machine, root: nat, tree: Tree, v: nat, perms: Permissions, content: Page, q: nat)
    requires SpaceOk(E, m, root, tree)
    ensures var (m', r) := LoadPage(E, m, root, v, perms, content);
            IsMapped(E, m'.mem, root, q) <==> IsMapped(E, m.mem, root, q) || (r.Loaded? && PageOf(q) == PageOf(v))
  {
    hide Lookup, LookupAt, Wf, Map, Lawful, PageIs;
    var a := AllocateZeroed(m);
    if a.1.Frame? {
      var m1 := Machine(SetPage(a.0.mem, a.1.index, content), a.0.pool);
      FreshFrame(E, m, root, tree, content);
      var tree' := MapCorrect(E, m1, root, tree, v, a.1.index, perms);
    }
  }

  lemma {:induction false} LoadSegmentMaps(E: Encoder, m: Machine, root: nat, tree: Tree, seg: Segment, p: nat, q: nat)
    requires SpaceOk(E, m, root, tree)
    ensures var (m', r) := LoadSegmentFrom(E, m, root, seg, p);
            && (IsMapped(E, m.mem, root, q) ==> IsMapped(E, m'.mem, root, q))
            && (IsMapped(E, m'.mem, root, q) ==> IsMapped(E, m.mem, root, q) || OnSegment(seg, p, q))
            && (r.Loaded? && OnSegment(seg, p, q) ==> IsMapped(E, m'.mem, root, q))
    decreases seg.PageCount() - p
  {
    hide SpaceOk, PageContent, LoadPage, IsMapped, PageOf, Undisturbed, PageHolds;
    if p < seg.PageCount() {
      var v := seg.PageVirt(p);
      var (m1, r) := LoadPage(E, m, root, v, seg.Perms(), PageContent(seg, v));
      LoadPageMaps(E, m, root, tree, v, seg.Perms(), PageContent(seg, v), q);
      if r.Loaded? {
        var tree1 := LoadPageCorrect(E, m, root, tree, v, seg.Perms(), PageContent(seg, v));
        LoadSegmentMaps(E, m1, root, tree1, seg, p + 1, q);
      }
      assert OnSegment(seg, p, q) <==> PageOf(v) == PageOf(q) || OnSegment(seg, p + 1, q);
    }
  }

  lemma {:induction false} LoadFromMaps(E: Encoder, m: Machine, root: nat, tree: Tree, image: Image, i: nat, q: nat)
    requires SpaceOk(E, m, root, tree) && i <= |image.segments|
    ensures var (m', r) := LoadFrom(E, m, root, image, i);
            && (IsMapped(E, m.mem, root, q) ==> IsMapped(E, m'.mem, root, q))
            && (IsMapped(E, m'.mem, root, q) ==> IsMapped(E, m.mem, root, q) || OnImage(image, i, q))
            && (r.Loaded? && OnImage(image, i, q) ==> IsMapped(E, m'.mem, root, q))
    decreases |image.segments| - i
  {
    hide SpaceOk, LoadSegmentFrom, IsMapped, OnSegment, Undisturbed, SegmentHolds;
    if i < |image.segments| {
      var seg := image.segments[i];
      LoadSegmentMaps(E, m, root, tree, seg, 0, q);
      var (m1, r) := LoadSegmentFrom(E, m, root, seg, 0);
      NoPages(E, m, tree, root, seg);
      var tree1 := LoadSegmentCorrect(E, m, root, tree, seg, 0);
      LoadFromMaps(E, m1, root, tree1, image, i + 1, q);
      assert OnImage(image, i, q) <==> OnSegment(seg, 0, q) || OnImage(image, i + 1, q);
    }
  }

  /** A load maps no address outside the image's pages, and a successful one maps exactly those. */
  lemma LoadMapsExactly(E: Encoder, m: Machine, root: nat, tree: Tree, image: Image)
    requires SpaceOk(E, m, root, tree)
    ensures var (m', r) := LoadAppImage(E, m, root, image);
            && (forall q: nat :: IsMapped(E, m'.mem, root, q) ==> IsMapped(E, m.mem, root, q) || OnImage(image, 0, q))
            && (r.Loaded? ==> forall q: nat ::
                  IsMapped(E, m'.mem, root, q) <==> IsMapped(E, m.mem, root, q) || OnImage(image, 0, q))
  {
    hide SpaceOk, LoadFrom, IsMapped, OnImage;
    forall q: nat {
      LoadFromMaps(E, m, root, tree, image, 0, q);
    }
  }

  // ---- the user stack ------------------------------------------------------

  ghost predicate StackHolds(E: Encoder, m: Machine, tree: Tree, root: nat, base: nat, n: nat) {
    forall p: nat {:trigger StackPage(base, p)} :: p < n ==>
      PageHolds(E, m, tree, root, StackPage(base, p), USER_RW, ZeroPage())
  }

  function StackPage(base: nat, p: nat): nat {
    base + p * FRAME_SIZE
  }

  lemma {:induction false} StackCorrect(E: Encoder, m: Machine, root: nat, tree: Tree, base: nat, pages: nat, p: nat)
    returns (tree': Tree)
    requires SpaceOk(E, m, root, tree) && StackHolds(E, m, tree, root, base, p) && p <= pages
    ensures var (m', r) := StackFrom(E, m, root, base, pages, p);
            && SpaceOk(E, m', root, tree') && Undisturbed(E, m, tree, m', tree', root)
            && (r.Loaded? ==> StackHolds(E, m', tree', root, base, pages) && r.value == StackTop(base, pages))
    decreases pages - p
  {
    hide SpaceOk, PageHolds, LoadPage, LookupAt;
    tree' := tree;
    UndisturbedSame(E, m, root, tree);
    if p < pages {
      var v := StackPage(base, p);
      var (m1, r) := LoadPage(E, m, root, v, USER_RW, ZeroPage());
      var tree1 := LoadPageCorrect(E, m, root, tree, v, USER_RW, ZeroPage());
      tree' := tree1;
      if r.Loaded? {
        forall q: nat | q < p + 1
          ensures PageHolds(E, m1, tree1, root, StackPage(base, q), USER_RW, ZeroPage())
        {
          if q < p {
            PageHoldsKept(E, m, tree, m1, tree1, root, StackPage(base, q), USER_RW, ZeroPage());
          }
        }
        tree' := StackCorrect(E, m1, root, tree1, base, pages, p + 1);
        UndisturbedTwice(E, m, tree, m1, tree1, StackFrom(E, m1, root, base, pages, p + 1).0, tree', root);
      }
    }
  }

  /** A mapped user stack reads as zero throughout, its addresses taken modulo 2^64. */
  lemma StackBytes(E: Encoder, m: Machine, root: nat, tree: Tree, base: nat, pages: nat, k: nat)
    requires SpaceOk(E, m, root, tree) && k < pages * FRAME_SIZE
    requires MapUserStack(E, m, root, base, pages).1.Loaded?
    ensures Reads(E, MapUserStack(E, m, root, base, pages).0, root, (base + k) % WORD_LIMIT, 0)
  {
    hide SpaceOk, Translate, ByteOf, ByteAt, StackFrom, Undisturbed, PageHolds;
    var tree' := StackCorrect(E, m, root, tree, base, pages, 0);
    LawfulSpace(E, m, root, tree);
    var m' := MapUserStack(E, m, root, base, pages).0;
    var p, o := k / FRAME_SIZE, k % FRAME_SIZE;
    assert p < pages;
    assert StackPage(base, p) + o == base + k;
    PageHoldsByte(E, m', tree', root, StackPage(base, p), USER_RW, ZeroPage(), o);
    ZeroByte(o);
    WrappedTranslation(E, m'.mem, root, base + k);
  }

  /** The returned top is the end of the stack rounded down to 16 bytes exactly when the
      stack ends below 2^64; beyond that the sum wraps. */
  lemma StackTopExactly(E: Encoder, m: Machine, root: nat, tree: Tree, base: nat, pages: nat)
    requires SpaceOk(E, m, root, tree) && MapUserStack(E, m, root, base, pages).1.Loaded?
    ensures var top, end := MapUserStack(E, m, root, base, pages).1.value, base + pages * FRAME_SIZE;
            && top % 16 == 0
            && (top <= end < top + 16 <==> end < WORD_LIMIT)
            && (end == WORD_LIMIT ==> top == 0)
  {
    hide SpaceOk, StackFrom, Undisturbed;
    var tree' := StackCorrect(E, m, root, tree, base, pages, 0);
  }

  lemma FilledTookOne(E: Encoder, m: Machine, root: nat, tree: Tree, content: Page)
    requires SpaceOk(E, m, root, tree) && AllocateZeroed(m).1.Frame?
    ensures var (m1, a) := AllocateZeroed(m);
            TookOne(E, m, Machine(SetPage(m1.mem, a.index, content), m1.pool), root, tree) && a.index < FRAME_LIMIT
  {
    hide Lookup, LookupAt, Lawful, Allocate, Consistent;
    FreshFrame(E, m, root, tree, content);
    FreeCountAfter(m.pool);
  }

  /** Whether the next page of `ps` is loaded, by the machine before the first. */
  lemma NextPageLoads(E: Encoder, m0: Machine, m: Machine, root: nat, tree: Tree, ps: PageList, i: nat,
                      perms: Permissions, content: Page)
    requires SpaceOk(E, m, root, tree) && Mid(E, m0, m, root, ps, i)
    ensures var (m1, r) := LoadPage(E, m, root, NthPage(ps, i), perms, content);
            && (r.Loaded? <==> FreeCount(m.pool) > 0 && !Stops(E, m0, root, ps, i))
            && (r.Loaded? ==> Mid(E, m0, m1, root, ps, i + 1))
  {
    hide Lookup, LookupAt, Wf, Lawful, Consistent, Map, Missing, Mid, Stops, NthPage, TookOne;
    var v := NthPage(ps, i);
    PageLoads(E, m, root, tree, v, perms, content);
    StopsIsRefused(E, m0, m, root, tree, ps, i);
    if AllocateZeroed(m).1.Frame? {
      var (m1, a) := AllocateZeroed(m);
      FilledTookOne(E, m, root, tree, content);
      var filled := Machine(SetPage(m1.mem, a.index, content), m1.pool);
      if Map(E, filled, root, v, a.index, perms).1.Mapped? {
        MidStep(E, m0, m, filled, root, tree, ps, i, a.index, perms);
      }
    }
  }

  /** The first `k` pages can be mapped and there are frames enough for them. */
  ghost predicate CanMap(E: Encoder, m: Machine, root: nat, ps: PageList, k: nat) {
    Open(E, m.mem, root, ps, k) && Needs(E, m.mem, root, ps, k) <= FreeCount(m.pool)
  }

  /** A page is loaded exactly when the pages up to it can be mapped. */
  lemma LoadsOn(E: Encoder, m0: Machine, m: Machine, root: nat, tree: Tree, ps: PageList, i: nat, perms: Permissions,
                content: Page)
    requires SpaceOk(E, m, root, tree) && Mid(E, m0, m, root, ps, i) && CanMap(E, m0, root, ps, i)
    ensures var (m1, r) := LoadPage(E, m, root, NthPage(ps, i), perms, content);
            && (r.Loaded? ==> Mid(E, m0, m1, root, ps, i + 1) && CanMap(E, m0, root, ps, i + 1))
            && (!r.Loaded? ==> forall k: nat :: i < k ==> !CanMap(E, m0, root, ps, k))
  {
    hide Open, Needs, Stops, Mid, LoadPage, MachineOk, Lawful, Wf, Backed, NthPage;
    FreeLeft(E, m0, m, root, ps, i);
    NextPageLoads(E, m0, m, root, tree, ps, i, perms, content);
    if LoadPage(E, m, root, NthPage(ps, i), perms, content).1.Loaded? {
      OpenNext(E, m0, root, ps, i);
      assert Needs(E, m0.mem, root, ps, i + 1) <= FreeCount(m0.pool) by { NotStopped(E, m0, root, ps, i); }
    } else {
      forall k: nat | i < k
        ensures !CanMap(E, m0, root, ps, k)
      {
        NoneLater(E, m0, root, ps, i, k);
      }
    }
  }

  lemma NotStopped(E: Encoder, m0: Machine, root: nat, ps: PageList, i: nat)
    requires !Stops(E, m0, root, ps, i)
    ensures Needs(E, m0.mem, root, ps, i + 1) <= FreeCount(m0.pool)
  {
  }

  lemma {:induction false} StackEnds(E: Encoder, m0: Machine, m: Machine, root: nat, tree: Tree, base: nat, pages: nat,
                                     p: nat)
    requires SpaceOk(E, m, root, tree) && p <= pages && Mid(E, m0, m, root, From(base), p)
    requires CanMap(E, m0, root, From(base), p)
    ensures StackFrom(E, m, root, base, pages, p).1.Loaded? <==> CanMap(E, m0, root, From(base), pages)
    decreases pages - p
  {
    hide CanMap, Mid, LoadPage, Undisturbed, PageHolds, SpaceOk;
    if p < pages {
      var v := NthPage(From(base), p);
      LoadsOn(E, m0, m, root, tree, From(base), p, USER_RW, ZeroPage());
      var (m1, r) := LoadPage(E, m, root, v, USER_RW, ZeroPage());
      if r.Loaded? {
        var tree1 := LoadPageCorrect(E, m, root, tree, v, USER_RW, ZeroPage());
        StackEnds(E, m0, m1, root, tree1, base, pages, p + 1);
      }
    }
  }

  lemma NothingToMap(E: Encoder, m: Machine, root: nat, tree: Tree, ps: PageList)
    requires SpaceOk(E, m, root, tree)
    ensures Mid(E, m, m, root, ps, 0) && CanMap(E, m, root, ps, 0)
  {
    MidStart(E, m, root, ps);
    FreeCountIsExact(m.pool);
  }

  /** A stack can be mapped exactly when its pages are aligned, different and unmapped and there
      are frames for them and for the tables they lack. */
  lemma StackExactly(E: Encoder, m: Machine, root: nat, tree: Tree, base: nat, pages: nat)
    requires SpaceOk(E, m, root, tree)
    ensures MapUserStack(E, m, root, base, pages).1.Loaded? <==> CanMap(E, m, root, From(base), pages)
  {
    hide StackFrom, Mid, SpaceOk, CanMap;
    NothingToMap(E, m, root, tree, From(base));
    StackEnds(E, m, m, root, tree, base, pages, 0);
  }

  // ---- when an image loads -------------------------------------------------

  function SegmentPages(seg: Segment): (s: seq<nat>)
    ensures |s| == seg.PageCount() && forall p: nat :: p < |s| ==> s[p] == seg.PageVirt(p)
  {
    seq(seg.PageCount(), p requires 0 <= p => seg.PageVirt(p))
  }

  /** The pages of a segment: the page-aligned addresses below its end whose page reaches past
      its start. */
  lemma SegmentPagesAre(seg: Segment, x: nat)
    ensures x in SegmentPages(seg) <==> x % 4096 == 0 && x < seg.vaddr + seg.memSize && seg.vaddr < x + 4096
    ensures forall i, j :: 0 <= i < j < |SegmentPages(seg)| ==> SegmentPages(seg)[i] < SegmentPages(seg)[j]
  {
    var s := SegmentPages(seg);
    if x in s {
      var p: nat :| p < |s| && s[p] == x;
    }
    if x % 4096 == 0 && x < seg.vaddr + seg.memSize && seg.vaddr < x + 4096 {
      var p := (x - seg.FirstPage()) / 4096;
      assert p < |s| && s[p] == x;
    }
  }

  /** The pages of the first `i` segments, in order. */
  function PagesBefore(image: Image, i: nat): seq<nat>
    requires i <= |image.segments|
  {
    if i == 0 then [] else PagesBefore(image, i - 1) + SegmentPages(image.segments[i - 1])
  }

  function ImagePages(image: Image): seq<nat> {
    PagesBefore(image, |image.segments|)
  }

  lemma {:induction false} PagesPrefix(image: Image, i: nat, k: nat)
    requires i <= k <= |image.segments|
    ensures PagesBefore(image, i) <= PagesBefore(image, k)
    decreases k - i
  {
    if i < k {
      PagesPrefix(image, i, k - 1);
    }
  }

  lemma PageOfSegment(image: Image, i: nat, p: nat)
    requires i < |image.segments| && p < image.segments[i].PageCount()
    ensures NthPage(Listed(ImagePages(image)), |PagesBefore(image, i)| + p) == image.segments[i].PageVirt(p)
    ensures |PagesBefore(image, i + 1)| == |PagesBefore(image, i)| + image.segments[i].PageCount()
  {
    PagesPrefix(image, i + 1, |image.segments|);
    assert PagesBefore(image, i + 1)[|PagesBefore(image, i)| + p] == SegmentPages(image.segments[i])[p];
  }

  /** One segment: loaded exactly when the pages up to its last can be mapped. */
  lemma {:induction false} SegmentEnds(E: Encoder, m0: Machine, m: Machine, root: nat, tree: Tree, seg: Segment,
                                       ps: PageList, off: nat, p: nat)
    returns (tree': Tree)
    requires SpaceOk(E, m, root, tree) && p <= seg.PageCount()
    requires Mid(E, m0, m, root, ps, off + p) && CanMap(E, m0, root, ps, off + p)
    requires forall q: nat {:trigger seg.PageVirt(q)} :: p <= q < seg.PageCount() ==>
               NthPage(ps, off + q) == seg.PageVirt(q)
    ensures var (m', r) := LoadSegmentFrom(E, m, root, seg, p);
            var end := off + seg.PageCount();
            && (r.Loaded? ==>
                  SpaceOk(E, m', root, tree') && Mid(E, m0, m', root, ps, end) && CanMap(E, m0, root, ps, end))
            && (!r.Loaded? ==> forall k: nat :: end <= k ==> !CanMap(E, m0, root, ps, k))
    decreases seg.PageCount() - p
  {
    hide CanMap, Mid, LoadPage, Undisturbed, PageHolds, SpaceOk, PageContent, NthPage;
    tree' := tree;
    if p < seg.PageCount() {
      var v := seg.PageVirt(p);
      LoadsOn(E, m0, m, root, tree, ps, off + p, seg.Perms(), PageContent(seg, v));
      var (m1, r) := LoadPage(E, m, root, v, seg.Perms(), PageContent(seg, v));
      if r.Loaded? {
        var tree1 := LoadPageCorrect(E, m, root, tree, v, seg.Perms(), PageContent(seg, v));
        tree' := SegmentEnds(E, m0, m1, root, tree1, seg, ps, off, p + 1);
      }
    }
  }

  lemma {:induction false} ImageEnds(E: Encoder, m0: Machine, m: Machine, root: nat, tree: Tree, image: Image, i: nat)
    requires SpaceOk(E, m, root, tree) && i <= |image.segments|
    requires Mid(E, m0, m, root, Listed(ImagePages(image)), |PagesBefore(image, i)|)
    requires CanMap(E, m0, root, Listed(ImagePages(image)), |PagesBefore(image, i)|)
    ensures LoadFrom(E, m, root, image, i).1.Loaded? <==>
              && (forall k :: i <= k < |image.segments| ==> image.segments[k].EndFits())
              && CanMap(E, m0, root, Listed(ImagePages(image)), |ImagePages(image)|)
    decreases |image.segments| - i
  {
    hide CanMap, Mid, LoadSegmentFrom, SpaceOk, NthPage;
    if i < |image.segments| && image.segments[i].EndFits() {
      var seg, ps, off := image.segments[i], Listed(ImagePages(image)), |PagesBefore(image, i)|;
      forall q: nat {:trigger seg.PageVirt(q)} | q < seg.PageCount()
        ensures NthPage(ps, off + q) == seg.PageVirt(q)
      {
        PageOfSegment(image, i, q);
      }
      assert |PagesBefore(image, i + 1)| == off + seg.PageCount();
      var (m1, r) := LoadSegmentFrom(E, m, root, seg, 0);
      var tree1 := SegmentEnds(E, m0, m, root, tree, seg, ps, off, 0);
      PagesPrefix(image, i + 1, |image.segments|);
      if r.Loaded? {
        ImageEnds(E, m0, m1, root, tree1, image, i + 1);
      }
    }
  }

  /** An image loads exactly when every segment ends below 2^64, no page of it is mapped or wanted
      twice, and there are frames for all its pages and for the tables they lack. */
  lemma LoadsExactly(E: Encoder, m: Machine, root: nat, tree: Tree, image: Image)
    requires SpaceOk(E, m, root, tree)
    ensures LoadAppImage(E, m, root, image).1.Loaded? <==>
              && (forall k :: 0 <= k < |image.segments| ==> image.segments[k].EndFits())
              && CanMap(E, m, root, Listed(ImagePages(image)), |ImagePages(image)|)
  {
    hide LoadFrom, Mid, SpaceOk, CanMap;
    NothingToMap(E, m, root, tree, Listed(ImagePages(image)));
    ImageEnds(E, m, m, root, tree, image, 0);
  }

  // ---- permissions ---------------------------------------------------------

  function FlagBit(on: bool, value: nat): nat {
    if on then value else 0
  }

  lemma FlagPerms(seg: Segment, read: bool, write: bool, execute: bool, rest: nat)
    requires seg.flags == FlagBit(read, 1) + FlagBit(write, 2) + FlagBit(execute, 4) + 8 * rest
    ensures seg.Perms() == Permissions(read, write, execute, true, false)
  {
    LowBits(seg.flags, FlagBit(read, 1), FlagBit(write, 1), FlagBit(execute, 1), rest);
  }

  lemma LowBits(flags: nat, r: nat, w: nat, x: nat, rest: nat)
    requires r <= 1 && w <= 1 && x <= 1 && flags == r + 2 * w + 4 * x + 8 * rest
    ensures flags % 2 == r && (flags / 2) % 2 == w && (flags / 4) % 2 == x
  {
    DivMod(flags, 2, w + 2 * x + 4 * rest, r);
    DivMod(w + 2 * x + 4 * rest, 2, x + 2 * rest, w);
    DivMod(flags, 4, x + 2 * rest, r + 2 * w);
    DivMod(x + 2 * rest, 2, rest, x);
  }

  /** The low three bits of a segment's flags are what its pages permit: reading, writing and
      executing, always for the user and never as device memory. */
  lemma LoadedPermissions(E: Encoder, m: Machine, root: nat, tree: Tree, image: Image, i: nat, j: nat,
                          read: bool, write: bool, execute: bool, rest: nat)
    requires SpaceOk(E, m, root, tree) && LoadAppImage(E, m, root, image).1.Loaded?
    requires i < |image.segments| && j < image.segments[i].PageCount()
    requires image.segments[i].flags == FlagBit(read, 1) + FlagBit(write, 2) + FlagBit(execute, 4) + 8 * rest
    ensures exists f: nat :: PageIs(E, LoadAppImage(E, m, root, image).0.mem, root, image.segments[i].PageVirt(j), f,
                                    Permissions(read, write, execute, true, false))
  {
    hide SpaceOk, LoadFrom, Undisturbed, PageIs, PageContent, FlagBit;
    var tree' := LoadFromCorrect(E, m, root, tree, image, 0);
    var seg := image.segments[i];
    assert SegmentHolds(E, LoadAppImage(E, m, root, image).0, tree', root, seg, seg.PageCount());
    FlagPerms(seg, read, write, execute, rest);
    assert PageHolds(E, LoadAppImage(E, m, root, image).0, tree', root, seg.PageVirt(j), seg.Perms(),
                     PageContent(seg, seg.PageVirt(j)));
  }

  /** Stack pages can be read and written by the user and not executed. */
  lemma StackPermissions(E: Encoder, m: Machine, root: nat, tree: Tree, base: nat, pages: nat, p: nat)
    requires SpaceOk(E, m, root, tree) && MapUserStack(E, m, root, base, pages).1.Loaded? && p < pages
    ensures exists f: nat :: PageIs(E, MapUserStack(E, m, root, base, pages).0.mem, root, StackPage(base, p), f,
                                    Permissions(true, true, false, true, false))
  {
    hide SpaceOk, StackFrom, Undisturbed, PageIs;
    var tree' := StackCorrect(E, m, root, tree, base, pages, 0);
    assert PageHolds(E, MapUserStack(E, m, root, base, pages).0, tree', root, StackPage(base, p), USER_RW, ZeroPage());
  }
}
