/** Four-level page tables held in physical frames (cibos-kernel/src/paging.rs):
    the walk, the single insertion that `map` and `map_block_2m` both perform, and
    the proof that insertion changes the translation of the addressed page only.

    Physical memory is a sequence of frames of 512 words. A frame outside memory
    reads as zero and ignores writes; a well-formed space never reaches one. */
module PageTables {
  import opened LittleEndian
  import opened PageEncoding
  import opened Addressing
  import opened FramePool
  import opened Options

  type Page = p: seq<Word> | |p| == ENTRIES witness seq(ENTRIES, _ => 0)
  type Memory = seq<Page>

  function ZeroPage(): (p: Page)
    ensures forall i :: 0 <= i < ENTRIES ==> p[i] == 0
  {
    seq(ENTRIES, _ => 0)
  }

  datatype Machine = Machine(mem: Memory, pool: Pool)

  function Entry(mem: Memory, t: nat, i: nat): Word
    requires i < ENTRIES
  {
    if t < |mem| then mem[t][i] else 0
  }

  function SetEntry(mem: Memory, t: nat, i: nat, w: Word): Memory
    requires i < ENTRIES
  {
    if t < |mem| then mem[t := mem[t][i := w]] else mem
  }

  function SetPage(mem: Memory, t: nat, p: Page): Memory {
    if t < |mem| then mem[t := p] else mem
  }

  // ---- the walk ------------------------------------------------------------

  /** The entry that decides an address: its word and the level it was found at. */
  datatype Hit = Hit(entry: Word, level: nat)

  /** Walk from table `t` at `level`: the leaf or block entry the path reaches, if any. */
  function Lookup(E: Encoder, mem: Memory, t: nat, level: nat, x: Path): (r: Option<Hit>)
    requires level < LEVELS
    ensures r.Some? ==> level <= r.value.level < LEVELS && E.isPresent(r.value.entry)
    decreases LEVELS - level
  {
    var e := Entry(mem, t, x[level]);
    if !E.isPresent(e) then None
    else if level == LEVELS - 1 || E.isBlockLeaf(e, level) then Some(Hit(e, level))
    else Lookup(E, mem, E.entryFrame(e), level + 1, x)
  }

  function PhysicalOf(E: Encoder, h: Hit, v: nat): nat
    requires h.level < LEVELS
  {
    BitOr(E.entryFrame(h.entry) * FRAME_SIZE, v % Span(h.level))
  }

  function Translate(E: Encoder, mem: Memory, root: nat, v: nat): Option<nat> {
    match Lookup(E, mem, root, 0, Indices(v))
    case None => None
    case Some(h) => Some(PhysicalOf(E, h, v))
  }

  // ---- well-formed spaces --------------------------------------------------

  /** The tables of a space: each table frame with the indices that lead to it. */
  type Tree = map<nat, seq<nat>>

  /** An entry of table `t`: a block only at level LEVELS-2 and 2 MiB aligned, and a
      table entry leads to a table of the tree whose path extends that of `t`. */
  ghost predicate SlotOk(E: Encoder, mem: Memory, tree: Tree, t: nat, i: nat)
    requires t in tree && i < ENTRIES
  {
    var e, l := Entry(mem, t, i), |tree[t]|;
    E.isPresent(e) && l < LEVELS - 1 ==>
      if E.isBlockLeaf(e, l) then l == LEVELS - 2 && E.entryFrame(e) % ENTRIES == 0
      else E.entryFrame(e) in tree && tree[E.entryFrame(e)] == tree[t] + [i]
  }

  /** Entry `i` of table `u` is a table entry leading to `c`. */
  ghost predicate Points(E: Encoder, mem: Memory, tree: Tree, u: nat, i: nat, c: nat)
    requires u in tree && i < ENTRIES
  {
    var e, l := Entry(mem, u, i), |tree[u]|;
    l < LEVELS - 1 && E.isPresent(e) && !E.isBlockLeaf(e, l) && E.entryFrame(e) == c
  }

  ghost predicate HasParent(E: Encoder, mem: Memory, tree: Tree, c: nat)
    requires c in tree
  {
    exists u, i: nat :: u in tree && i < ENTRIES && tree[c] == tree[u] + [i] && Points(E, mem, tree, u, i, c)
  }

  /** `tree` is exactly the tables of the space rooted at `root`, and they form a
      tree: every table other than the root has a parent, and no two tables have
      the same path. */
  ghost predicate Wf(E: Encoder, mem: Memory, root: nat, tree: Tree) {
    && root in tree && tree[root] == []
    && (forall t :: t in tree ==> t < |mem| && t < FRAME_LIMIT && |tree[t]| < LEVELS)
    && (forall t, i: nat {:trigger SlotOk(E, mem, tree, t, i)} ::
          t in tree && i < ENTRIES ==> SlotOk(E, mem, tree, t, i))
    && (forall c {:trigger HasParent(E, mem, tree, c)} :: c in tree && c != root ==> HasParent(E, mem, tree, c))
    && (forall a, b {:trigger tree[a], tree[b]} :: a in tree && b in tree && tree[a] == tree[b] ==> a == b)
  }

  /** Tables form a tree and not a DAG: a table is entered through one slot only. */
  lemma TreeNotDag(E: Encoder, mem: Memory, root: nat, tree: Tree, t: nat, i: nat, u: nat, j: nat)
    requires Wf(E, mem, root, tree) && t in tree && u in tree && i < ENTRIES && j < ENTRIES
    requires Points(E, mem, tree, t, i, E.entryFrame(Entry(mem, t, i)))
    requires Points(E, mem, tree, u, j, E.entryFrame(Entry(mem, t, i)))
    ensures t == u && i == j
  {
    var c := E.entryFrame(Entry(mem, t, i));
    assert SlotOk(E, mem, tree, t, i) && SlotOk(E, mem, tree, u, j);
    assert tree[t] + [i] == tree[u] + [j];
    assert (tree[t] + [i])[|tree[t]|] == (tree[u] + [j])[|tree[u]|];
    assert tree[t] == (tree[t] + [i])[..|tree[t]|] == (tree[u] + [j])[..|tree[u]|] == tree[u];
  }

  /** Every ancestor path of a table is the path of a table, and leads on to it. */
  lemma {:induction false} OnPath(E: Encoder, mem: Memory, root: nat, tree: Tree, t: nat, u: nat, k: nat)
    requires Wf(E, mem, root, tree) && t in tree && u in tree
    requires k < |tree[t]| && tree[u] == tree[t][..k]
    ensures tree[t][k] < ENTRIES && Points(E, mem, tree, u, tree[t][k], E.entryFrame(Entry(mem, u, tree[t][k])))
    decreases |tree[t]|
  {
    assert t != root;
    assert HasParent(E, mem, tree, t);
    var p, i: nat :| p in tree && i < ENTRIES && tree[t] == tree[p] + [i] && Points(E, mem, tree, p, i, t);
    if k == |tree[p]| {
      assert tree[t][..k] == tree[p];
    } else {
      assert tree[t][..k] == tree[p][..k];
      OnPath(E, mem, root, tree, p, u, k);
    }
  }

  // ---- two elementary updates ----------------------------------------------

  predicate Terminal(E: Encoder, w: Word, l: nat) {
    E.isPresent(w) && (l == LEVELS - 1 || (l == LEVELS - 2 && E.isBlockLeaf(w, l) && E.entryFrame(w) % ENTRIES == 0))
  }

  /** Writing a leaf or block entry into an empty slot. */
  ghost predicate LeafWrite(E: Encoder, mem: Memory, root: nat, tree: Tree, t: nat, x: Path, w: Word) {
    && Wf(E, mem, root, tree) && t in tree && tree[t] == x[..|tree[t]|]
    && !E.isPresent(Entry(mem, t, x[|tree[t]|]))
    && Terminal(E, w, |tree[t]|)
  }

  lemma LeafWriteWf(E: Encoder, mem: Memory, root: nat, tree: Tree, t: nat, x: Path, w: Word)
    requires LeafWrite(E, mem, root, tree, t, x, w)
    ensures Wf(E, SetEntry(mem, t, x[|tree[t]|], w), root, tree)
  {
    var i := x[|tree[t]|];
    var mem' := SetEntry(mem, t, i, w);
    forall u, j: nat | u in tree && j < ENTRIES
      ensures SlotOk(E, mem', tree, u, j)
    {
      assert SlotOk(E, mem, tree, u, j);
    }
    forall c | c in tree && c != root
      ensures HasParent(E, mem', tree, c)
    {
      assert HasParent(E, mem, tree, c);
      var p, j: nat :| p in tree && j < ENTRIES && tree[c] == tree[p] + [j] && Points(E, mem, tree, p, j, c);
      assert Points(E, mem', tree, p, j, c);
    }
  }

  /** ... does not change the walk of an address through another slot, */
  lemma {:induction false} LeafWriteMiss(E: Encoder, mem: Memory, root: nat, tree: Tree, t: nat, x: Path, w: Word,
                                         u: nat, k: nat, y: Path)
    requires LeafWrite(E, mem, root, tree, t, x, w)
    requires u in tree && k == |tree[u]| && tree[u] == y[..k]
    requires |tree[t]| < k || !SameSlot(y, x, |tree[t]|)
    ensures Lookup(E, SetEntry(mem, t, x[|tree[t]|], w), u, k, y) == Lookup(E, mem, u, k, y)
    decreases LEVELS - k
  {
    var i := y[k];
    var e := Entry(mem, u, i);
    assert u == t ==> i != x[k];
    if E.isPresent(e) && k < LEVELS - 1 && !E.isBlockLeaf(e, k) {
      assert SlotOk(E, mem, tree, u, i);
      PathStep(y, k);
      LeafWriteMiss(E, mem, root, tree, t, x, w, E.entryFrame(e), k + 1, y);
    }
  }

  /** ... and is what every address through its slot now finds. */
  lemma {:induction false} LeafWriteHit(E: Encoder, mem: Memory, root: nat, tree: Tree, t: nat, x: Path, w: Word,
                                        u: nat, k: nat, y: Path)
    requires LeafWrite(E, mem, root, tree, t, x, w)
    requires u in tree && k == |tree[u]| && tree[u] == y[..k]
    requires k <= |tree[t]| && SameSlot(y, x, |tree[t]|)
    ensures Lookup(E, mem, u, k, y) == None
    ensures Lookup(E, SetEntry(mem, t, x[|tree[t]|], w), u, k, y) == Some(Hit(w, |tree[t]|))
    decreases LEVELS - k
  {
    var l := |tree[t]|;
    if k == l {
      SlotPrefix(x, y, l, l);
      assert u == t;
    } else {
      var i := y[k];
      SlotPrefix(x, y, l, k);
      OnPath(E, mem, root, tree, t, u, k);
      assert SlotOk(E, mem, tree, u, i);
      PathStep(y, k);
      LeafWriteHit(E, mem, root, tree, t, x, w, E.entryFrame(Entry(mem, u, i)), k + 1, y);
    }
  }

  /** Hanging a fresh zeroed table `c` into the empty slot `i` of table `t`. */
  ghost predicate TableWrite(E: Encoder, mem: Memory, root: nat, tree: Tree, t: nat, i: nat, c: nat) {
    && Lawful(E) && Wf(E, mem, root, tree) && t in tree && i < ENTRIES && |tree[t]| < LEVELS - 1
    && !E.isPresent(Entry(mem, t, i))
    && c !in tree && c < |mem| && c < FRAME_LIMIT
  }

  function Hang(E: Encoder, mem: Memory, t: nat, i: nat, c: nat): Memory
    requires i < ENTRIES
  {
    SetEntry(SetPage(mem, c, ZeroPage()), t, i, E.encodeTable(c))
  }

  lemma HangEntries(E: Encoder, mem: Memory, t: nat, i: nat, c: nat, u: nat, j: nat)
    requires i < ENTRIES && j < ENTRIES && t != c && t < |mem| && c < |mem|
    ensures Entry(Hang(E, mem, t, i, c), u, j) ==
            if u == t && j == i then E.encodeTable(c) else if u == c then 0 else Entry(mem, u, j)
  {
  }

  lemma PathUnused(E: Encoder, mem: Memory, root: nat, tree: Tree, t: nat, i: nat, c: nat, d: nat)
    requires TableWrite(E, mem, root, tree, t, i, c) && d in tree
    ensures tree[d] != tree[t] + [i]
  {
    if tree[d] == tree[t] + [i] {
      assert tree[t] == tree[d][..|tree[t]|];
      OnPath(E, mem, root, tree, d, t, |tree[t]|);
    }
  }

  lemma HangParent(E: Encoder, mem: Memory, root: nat, tree: Tree, t: nat, i: nat, c: nat, d: nat)
    requires TableWrite(E, mem, root, tree, t, i, c) && d in tree[c := tree[t] + [i]] && d != root
    ensures HasParent(E, Hang(E, mem, t, i, c), tree[c := tree[t] + [i]], d)
  {
    var mem', tree' := Hang(E, mem, t, i, c), tree[c := tree[t] + [i]];
    if d == c {
      HangEntries(E, mem, t, i, c, t, i);
      assert Points(E, mem', tree', t, i, c);
    } else {
      assert HasParent(E, mem, tree, d);
      var p, j: nat :| p in tree && j < ENTRIES && tree[d] == tree[p] + [j] && Points(E, mem, tree, p, j, d);
      HangEntries(E, mem, t, i, c, p, j);
      assert Points(E, mem', tree', p, j, d);
    }
  }

  lemma TableWriteWf(E: Encoder, mem: Memory, root: nat, tree: Tree, t: nat, i: nat, c: nat)
    requires TableWrite(E, mem, root, tree, t, i, c)
    ensures Wf(E, Hang(E, mem, t, i, c), root, tree[c := tree[t] + [i]])
  {
    var mem', tree' := Hang(E, mem, t, i, c), tree[c := tree[t] + [i]];
    forall u, j: nat | u in tree' && j < ENTRIES
      ensures SlotOk(E, mem', tree', u, j)
    {
      HangEntries(E, mem, t, i, c, u, j);
      if u != c {
        assert SlotOk(E, mem, tree, u, j);
      }
    }
    forall d | d in tree' && d != root
      ensures HasParent(E, mem', tree', d)
    {
      HangParent(E, mem, root, tree, t, i, c, d);
    }
    forall d | d in tree
      ensures tree[d] != tree[t] + [i]
    {
      PathUnused(E, mem, root, tree, t, i, c, d);
    }
  }

  /** ... changes no walk at all. */
  lemma {:induction false} TableWriteLookup(E: Encoder, mem: Memory, root: nat, tree: Tree, t: nat, i: nat, c: nat,
                                            u: nat, k: nat, y: Path)
    requires TableWrite(E, mem, root, tree, t, i, c)
    requires u in tree && k == |tree[u]| && tree[u] == y[..k]
    ensures Lookup(E, Hang(E, mem, t, i, c), u, k, y) == Lookup(E, mem, u, k, y)
    decreases LEVELS - k
  {
    var j := y[k];
    var e := Entry(mem, u, j);
    HangEntries(E, mem, t, i, c, u, j);
    if u == t && j == i {
      HangEntries(E, mem, t, i, c, c, y[k + 1]);
    } else if E.isPresent(e) && k < LEVELS - 1 && !E.isBlockLeaf(e, k) {
      assert SlotOk(E, mem, tree, u, j);
      PathStep(y, k);
      TableWriteLookup(E, mem, root, tree, t, i, c, E.entryFrame(e), k + 1, y);
    }
  }
}
