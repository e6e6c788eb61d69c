/** CIBOSFS directories (cibos-kernel/src/fs.rs): the on-disk entry format, and the
    name tree that directory entries form. */
module Directories {
  import opened LittleEndian
  import opened Options

  const NAME_MAX: nat := 23
  const DIR_ENTRY_SIZE: nat := 32
  const INODE_LIMIT: nat := 0x1_0000_0000

  type Name = seq<Byte>

  datatype DirEnt = DirEnt(ino: nat, name: Name)

  // ---- entry format --------------------------------------------------------

  predicate EntOk(e: DirEnt) {
    0 < e.ino < INODE_LIMIT && |e.name| <= NAME_MAX
  }

  predicate EntsOk(es: seq<DirEnt>) {
    forall i :: 0 <= i < |es| ==> EntOk(es[i])
  }

  predicate NamesFit(es: seq<DirEnt>) {
    forall i :: 0 <= i < |es| ==> |es[i].name| <= NAME_MAX
  }

  function Zeros(n: nat): (z: seq<Byte>)
    ensures |z| == n
  {
    seq<Byte>(n, _ => 0)
  }

  /** inode number (4), name length (1), name padded to NAME_MAX, 4 bytes of padding. */
  function EncodeEnt(e: DirEnt): (b: seq<Byte>)
    requires |e.name| <= NAME_MAX
    ensures |b| == DIR_ENTRY_SIZE
  {
    Encode(e.ino, 4) + [|e.name|] + (e.name + Zeros(NAME_MAX - |e.name|)) + Zeros(4)
  }

  function EncodeDir(es: seq<DirEnt>): (b: seq<Byte>)
    requires NamesFit(es)
    ensures |b| == DIR_ENTRY_SIZE * |es|
  {
    if es == [] then [] else EncodeDir(es[..|es| - 1]) + EncodeEnt(es[|es| - 1])
  }

  /** The entry at `off`, unless it is free or its name length is out of range. */
  function DecodeEnt(data: seq<Byte>, off: nat): (r: seq<DirEnt>)
    requires off + DIR_ENTRY_SIZE <= |data|
    ensures |r| <= 1 && EntsOk(r)
  {
    PowersOf256();
    var ino, len := Decode(data[off..off + 4]), data[off + 4];
    if ino != 0 && len <= NAME_MAX then [DirEnt(ino, data[off + 5..off + 5 + len])] else []
  }

  /** The entries in the first `k` slots. */
  function DecodeUpTo(data: seq<Byte>, k: nat): (r: seq<DirEnt>)
    requires k * DIR_ENTRY_SIZE <= |data|
    ensures |r| <= k && EntsOk(r)
  {
    if k == 0 then [] else DecodeUpTo(data, k - 1) + DecodeEnt(data, (k - 1) * DIR_ENTRY_SIZE)
  }

  function DecodeDir(data: seq<Byte>): (r: seq<DirEnt>)
    ensures DIR_ENTRY_SIZE * |r| <= |data| && EntsOk(r)
  {
    DecodeUpTo(data, |data| / DIR_ENTRY_SIZE)
  }

  lemma DecodeEncodeEnt(e: DirEnt, data: seq<Byte>, off: nat)
    requires EntOk(e) && off + DIR_ENTRY_SIZE <= |data| && data[off..off + DIR_ENTRY_SIZE] == EncodeEnt(e)
    ensures DecodeEnt(data, off) == [e]
  {
    hide Decode, Encode;
    PowersOf256();
    var b := EncodeEnt(e);
    forall i | 0 <= i < DIR_ENTRY_SIZE
      ensures data[off + i] == b[i]
    {
      assert data[off..off + DIR_ENTRY_SIZE][i] == b[i];
    }
    assert data[off..off + 4] == b[..4] == Encode(e.ino, 4);
    DecodeEncode(e.ino, 4);
    assert data[off + 4] == b[4] == |e.name|;
    assert b[5..5 + |e.name|] == e.name;
    assert data[off + 5..off + 5 + |e.name|] == b[5..5 + |e.name|];
  }

  lemma {:induction false} DecodePrefix(a: seq<Byte>, b: seq<Byte>, k: nat)
    requires k * DIR_ENTRY_SIZE <= |a| <= |b| && b[..|a|] == a
    ensures DecodeUpTo(b, k) == DecodeUpTo(a, k)
  {
    if k > 0 {
      DecodePrefix(a, b, k - 1);
      var off := (k - 1) * DIR_ENTRY_SIZE;
      SameEntry(a, b, off);
    }
  }

  lemma SameEntry(a: seq<Byte>, b: seq<Byte>, off: nat)
    requires off + DIR_ENTRY_SIZE <= |a| <= |b| && b[..|a|] == a
    ensures DecodeEnt(b, off) == DecodeEnt(a, off)
  {
    hide Decode;
    assert forall i :: 0 <= i < |a| ==> b[i] == b[..|a|][i] == a[i];
    assert b[off..off + 4] == a[off..off + 4];
    var len := a[off + 4];
    if len <= NAME_MAX {
      assert b[off + 5..off + 5 + len] == a[off + 5..off + 5 + len];
    }
  }

  lemma DecodeAppended(front: seq<Byte>, k: nat, e: DirEnt)
    requires |front| == k * DIR_ENTRY_SIZE && EntOk(e)
    ensures DecodeDir(front + EncodeEnt(e)) == DecodeDir(front) + [e]
  {
    hide EncodeEnt, DecodeEnt;
    var data := front + EncodeEnt(e);
    assert data[..|front|] == front && data[|front|..|front| + DIR_ENTRY_SIZE] == EncodeEnt(e);
    DecodePrefix(front, data, k);
    DecodeEncodeEnt(e, data, |front|);
  }

  /** A re-encoded directory reads back as its entries. */
  lemma {:induction false} DecodeEncodeDir(es: seq<DirEnt>)
    requires EntsOk(es)
    ensures DecodeDir(EncodeDir(es)) == es
  {
    hide EncodeEnt, DecodeDir;
    if es == [] {
      NoEntries();
    } else {
      var n := |es| - 1;
      DecodeEncodeDir(es[..n]);
      DecodeAppended(EncodeDir(es[..n]), n, es[n]);
      assert es[..n] + [es[n]] == es;
    }
  }

  lemma NoEntries()
    ensures DecodeDir([]) == []
  {
  }

  // ---- the name tree -------------------------------------------------------

  /** Each directory's entries, by inode number. */
  type Graph = map<nat, seq<DirEnt>>

  type Path = seq<Name>

  const ROOT: nat := 0

  /** The first entry named `name`. */
  function Find(es: seq<DirEnt>, name: Name): Option<nat> {
    if es == [] then None else if es[0].name == name then Some(es[0].ino) else Find(es[1..], name)
  }

  lemma {:induction false} FindSome(es: seq<DirEnt>, name: Name) returns (i: nat)
    requires Find(es, name).Some?
    ensures i < |es| && es[i].name == name && es[i].ino == Find(es, name).value
  {
    if es[0].name == name {
      i := 0;
    } else {
      i := FindSome(es[1..], name);
      i := i + 1;
    }
  }

  lemma {:induction false} FindNone(es: seq<DirEnt>, name: Name)
    ensures Find(es, name).None? <==> forall i :: 0 <= i < |es| ==> es[i].name != name
  {
    if es != [] {
      FindNone(es[1..], name);
      assert forall i :: 0 < i < |es| ==> es[i] == es[1..][i - 1];
      assert forall i :: 0 <= i < |es[1..]| ==> es[1..][i] == es[i + 1];
    }
  }

  function FindIn(g: Graph, d: nat, name: Name): Option<nat> {
    if d in g then Find(g[d], name) else None
  }

  /** The inode a path leads to from the root. */
  function Walk(g: Graph, q: Path): Option<nat> {
    if q == [] then Some(ROOT)
    else
      var d := Walk(g, q[..|q| - 1]);
      if d.Some? then FindIn(g, d.value, q[|q| - 1]) else None
  }

  predicate UniqueNames(es: seq<DirEnt>) {
    forall i, j :: 0 <= i < j < |es| ==> es[i].name != es[j].name
  }

  predicate Slot(g: Graph, d: nat, i: nat) {
    d in g && i < |g[d]|
  }

  /** The entries form a tree under the root: names are unique in a directory, every
      inode is entered through at most one entry, and the root through none. */
  ghost predicate TreeLike(g: Graph) {
    && ROOT in g && (forall d :: d in g ==> UniqueNames(g[d]))
    && (forall d, i: nat {:trigger Slot(g, d, i)} :: Slot(g, d, i) ==> g[d][i].ino != ROOT)
    && (forall d, i: nat, e, j: nat {:trigger Slot(g, d, i), Slot(g, e, j)} ::
          Slot(g, d, i) && Slot(g, e, j) && g[d][i].ino == g[e][j].ino ==> d == e && i == j)
  }

  lemma FoundSlot(g: Graph, d: nat, name: Name) returns (i: nat)
    requires FindIn(g, d, name).Some?
    ensures Slot(g, d, i) && g[d][i].name == name && g[d][i].ino == FindIn(g, d, name).value
  {
    i := FindSome(g[d], name);
  }

  /** No inode has two paths. */
  lemma {:induction false} UniquePath(g: Graph, a: Path, b: Path)
    requires TreeLike(g) && Walk(g, a).Some? && Walk(g, a) == Walk(g, b)
    ensures a == b
    decreases |a|
  {
    if a != [] {
      var i := FoundSlot(g, Walk(g, a[..|a| - 1]).value, a[|a| - 1]);
      if b != [] {
        var j := FoundSlot(g, Walk(g, b[..|b| - 1]).value, b[|b| - 1]);
        UniquePath(g, a[..|a| - 1], b[..|b| - 1]);
        assert a == a[..|a| - 1] + [a[|a| - 1]] && b == b[..|b| - 1] + [b[|b| - 1]];
      }
    } else if b != [] {
      var j := FoundSlot(g, Walk(g, b[..|b| - 1]).value, b[|b| - 1]);
    }
  }

  // ---- adding and removing an entry ----------------------------------------

  /** `ino` is entered through no entry, and is no directory or an empty one. */
  ghost predicate Detached(g: Graph, ino: nat) {
    && (forall d, i: nat {:trigger Slot(g, d, i)} :: Slot(g, d, i) ==> g[d][i].ino != ino)
    && (ino in g ==> g[ino] == [])
  }

  lemma {:induction false} FindAppended(es: seq<DirEnt>, e: DirEnt, name: Name)
    ensures Find(es + [e], name) ==
            if Find(es, name).Some? then Find(es, name) else if e.name == name then Some(e.ino) else None
  {
    if es != [] {
      FindAppended(es[1..], e, name);
      assert (es + [e])[1..] == es[1..] + [e];
    }
  }

  /** Entering detached inode `ino` under a new name gives one new path and leaves
      every other path as it was. */
  lemma {:induction false} AddedPath(g: Graph, p: nat, e: DirEnt, c: Path, q: Path)
    requires TreeLike(g) && p in g && p != e.ino && Detached(g, e.ino) && e.ino != ROOT && Find(g[p], e.name).None?
    requires c != [] && Walk(g, c[..|c| - 1]) == Some(p) && c[|c| - 1] == e.name
    ensures Walk(g, c).None?
    ensures Walk(g[p := g[p] + [e]], q) == if q == c then Some(e.ino) else Walk(g, q)
    decreases |q|
  {
    var g' := g[p := g[p] + [e]];
    if q != [] {
      var r, x := q[..|q| - 1], q[|q| - 1];
      AddedPath(g, p, e, c, r);
      FindAppended(g[p], e, x);
      if r != c && Walk(g, r) == Some(p) {
        UniquePath(g, r, c[..|c| - 1]);
        if x == e.name {
          assert q == r + [x] && c == c[..|c| - 1] + [e.name];
        }
      }
    }
  }

  lemma AddedTree(g: Graph, p: nat, e: DirEnt)
    requires TreeLike(g) && p in g && Detached(g, e.ino) && e.ino != ROOT && Find(g[p], e.name).None?
    ensures TreeLike(g[p := g[p] + [e]])
  {
    var g' := g[p := g[p] + [e]];
    FindNone(g[p], e.name);
    forall d, i: nat | Slot(g', d, i)
      ensures g'[d][i].ino != ROOT
      ensures (d == p && i == |g[p]|) || (Slot(g, d, i) && g'[d][i] == g[d][i])
    {
      assert !(d == p && i == |g[p]|) ==> Slot(g, d, i);
    }
    forall d, i: nat, f, j: nat | Slot(g', d, i) && Slot(g', f, j) && g'[d][i].ino == g'[f][j].ino
      ensures d == f && i == j
    {
      assert !(d == p && i == |g[p]|) ==> Slot(g, d, i);
      assert !(f == p && j == |g[p]|) ==> Slot(g, f, j);
    }
  }

  /** The entries not named `name`, in order. */
  function Without(es: seq<DirEnt>, name: Name): (r: seq<DirEnt>)
    ensures |r| <= |es|
    ensures forall i :: 0 <= i < |r| ==> r[i] in es && r[i].name != name
  {
    if es == [] then []
    else (if es[0].name == name then [] else [es[0]]) + Without(es[1..], name)
  }

  lemma {:induction false} FindWithout(es: seq<DirEnt>, name: Name, x: Name)
    ensures Find(Without(es, name), x) == if x == name then None else Find(es, x)
  {
    if es != [] {
      FindWithout(es[1..], name, x);
      var rest := Without(es[1..], name);
      assert ([es[0]] + rest)[1..] == rest && [] + rest == rest;
    }
  }

  /** With unique names, dropping a present name drops exactly one entry. */
  lemma {:induction false} WithoutLength(es: seq<DirEnt>, name: Name)
    requires UniqueNames(es)
    ensures |Without(es, name)| == |es| - if Find(es, name).Some? then 1 else 0
    ensures UniqueNames(Without(es, name))
  {
    if es != [] {
      assert UniqueNames(es[1..]) by {
        assert forall i :: 0 <= i < |es[1..]| ==> es[1..][i] == es[i + 1];
      }
      WithoutLength(es[1..], name);
      if es[0].name == name {
        FindNone(es[1..], name);
        assert forall i :: 0 <= i < |es[1..]| ==> es[1..][i] == es[i + 1];
      } else {
        var rest := Without(es[1..], name);
        assert Without(es, name) == [es[0]] + rest;
        forall i | 0 <= i < |rest|
          ensures rest[i].name != es[0].name
        {
          assert rest[i] in es[1..];
        }
      }
    }
  }

  /** Dropping the entry of a file removes that path only. */
  lemma {:induction false} RemovedPath(g: Graph, p: nat, name: Name, c: Path, q: Path)
    requires TreeLike(g) && p in g && c != [] && Walk(g, c[..|c| - 1]) == Some(p) && c[|c| - 1] == name
    requires Walk(g, c).Some? && Walk(g, c).value !in g
    ensures Walk(g[p := Without(g[p], name)], q) == if q == c then None else Walk(g, q)
    decreases |q|
  {
    if q != [] {
      var r, x := q[..|q| - 1], q[|q| - 1];
      RemovedPath(g, p, name, c, r);
      FindWithout(g[p], name, x);
      if r != c && Walk(g, r) == Some(p) {
        UniquePath(g, r, c[..|c| - 1]);
        if x == name {
          assert q == r + [x] && c == c[..|c| - 1] + [name];
        }
      }
    }
  }

  lemma RemovedTree(g: Graph, p: nat, name: Name)
    requires TreeLike(g) && p in g
    ensures TreeLike(g[p := Without(g[p], name)])
  {
    var g' := g[p := Without(g[p], name)];
    WithoutLength(g[p], name);
    forall d, i: nat | Slot(g', d, i)
      ensures g'[d][i].ino != ROOT
    {
      var k := StillThere(g, p, name, d, i);
    }
    forall d, i: nat, f, j: nat | Slot(g', d, i) && Slot(g', f, j) && g'[d][i].ino == g'[f][j].ino
      ensures d == f && i == j
    {
      var k := StillThere(g, p, name, d, i);
      var l := StillThere(g, p, name, f, j);
      assert g'[d][i] == g'[f][j];
      assert UniqueNames(g'[d]);
    }
  }

  lemma StillThere(g: Graph, p: nat, name: Name, d: nat, i: nat) returns (k: nat)
    requires p in g && Slot(g[p := Without(g[p], name)], d, i)
    ensures Slot(g, d, k) && g[d][k] == g[p := Without(g[p], name)][d][i]
  {
    if d == p {
      assert Without(g[p], name)[i] in g[p];
      k :| 0 <= k < |g[p]| && g[p][k] == Without(g[p], name)[i];
    } else {
      k := i;
    }
  }
}
