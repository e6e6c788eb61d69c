/** Whole runs of CIBOSFS operations (cibos-kernel/src/fs.rs), and the splitting of paths
    into names. */
module FsRuns {
  import opened LittleEndian
  import opened Volume
  import opened Directories
  import opened FileSystem
  import opened FsTheorems
  import opened FsLosses

  datatype Op = MakeDir(path: Path) | Write(path: Path, bytes: seq<Byte>) | Remove(path: Path)

  function Apply(v: Vol, op: Op): Vol {
    match op
    case MakeDir(q) => Mkdir(v, q).0
    case Write(q, d) => WriteFile(v, q, d).0
    case Remove(q) => RemoveFile(v, q).0
  }

  function Run(v: Vol, ops: seq<Op>): Vol {
    if ops == [] then v else Apply(Run(v, ops[..|ops| - 1]), ops[|ops| - 1])
  }

  /** The operation runs out of clear blocks on the way. */
  ghost predicate RunsDry(v: Vol, op: Op) {
    op.Write? && WriteRunsOut(v, op.path, op.bytes)
  }

  /** Some operation of the run does. */
  ghost predicate RanDry(v: Vol, ops: seq<Op>) {
    ops != [] && (RanDry(v, ops[..|ops| - 1]) || RunsDry(Run(v, ops[..|ops| - 1]), ops[|ops| - 1]))
  }

  lemma ApplyKeeps(v: Vol, op: Op)
    requires Wf(v)
    ensures Wf(Apply(v, op))
    ensures forall q: Path :: q != op.path ==> NodeAt(Apply(v, op), q) == NodeAt(v, q)
  {
    hide Wf, Exact, NodeAt, Mkdir, WriteFile, RemoveFile;
    match op {
      case MakeDir(q) => MkdirCorrect(v, q);
      case Write(q, d) => WriteFileCorrect(v, q, d);
      case Remove(q) => RemoveFileCorrect(v, q);
    }
  }

  /** The marks are exactly the blocks in use after an operation if and only if they were
      before and the operation did not run out of clear blocks on the way. */
  lemma ApplyExact(v: Vol, op: Op)
    requires Wf(v)
    ensures Exact(Apply(v, op)) <==> Exact(v) && !RunsDry(v, op)
  {
    hide Wf, Exact, Lost, Mkdir, WriteFile, RemoveFile, WriteRunsOut;
    ExactIsNoneLost(v);
    ExactIsNoneLost(Apply(v, op));
    match op {
      case MakeDir(q) => MkdirLosses(v, q);
      case Write(q, d) => WriteFileLosses(v, q, d);
      case Remove(q) => RemoveFileLosses(v, q);
    }
  }

  /** After any run every block in use lies in the data region, is marked, and is used
      once; and the marked blocks are exactly the blocks in use if and only if they were
      at the start and no write ran out of clear blocks on the way. */
  lemma {:induction false} RunKeeps(v: Vol, ops: seq<Op>)
    requires Wf(v)
    ensures Wf(Run(v, ops))
    ensures Exact(Run(v, ops)) <==> Exact(v) && !RanDry(v, ops)
    decreases |ops|
  {
    hide Wf, Exact, Apply, RunsDry;
    if ops != [] {
      RunKeeps(v, ops[..|ops| - 1]);
      ApplyKeeps(Run(v, ops[..|ops| - 1]), ops[|ops| - 1]);
      ApplyExact(Run(v, ops[..|ops| - 1]), ops[|ops| - 1]);
    }
  }

  /** A path no operation of the run names keeps its node, whatever fails. */
  lemma {:induction false} RunLeavesOtherPaths(v: Vol, ops: seq<Op>, q: Path)
    requires Wf(v) && forall i :: 0 <= i < |ops| ==> ops[i].path != q
    ensures NodeAt(Run(v, ops), q) == NodeAt(v, q)
    decreases |ops|
  {
    hide Wf, NodeAt, Apply;
    if ops != [] {
      RunLeavesOtherPaths(v, ops[..|ops| - 1], q);
      RunKeeps(v, ops[..|ops| - 1]);
      ApplyKeeps(Run(v, ops[..|ops| - 1]), ops[|ops| - 1]);
    }
  }

  // ---- paths ---------------------------------------------------------------

  const SLASH: Byte := 47

  /** Split at slashes, ignoring empty parts: the parts of `path` from `i` on, with
      `part` the bytes since the last slash. */
  function PartsFrom(path: seq<Byte>, i: nat, part: Name): Path
    decreases |path| - i
  {
    if i >= |path| then (if part == [] then [] else [part])
    else if path[i] == SLASH then (if part == [] then [] else [part]) + PartsFrom(path, i + 1, [])
    else PartsFrom(path, i + 1, part + [path[i]])
  }

  function Components(path: seq<Byte>): Path {
    PartsFrom(path, 0, [])
  }

  predicate Plain(name: Name) {
    name != [] && SLASH !in name
  }

  function Join(q: Path): seq<Byte> {
    if q == [] then [] else [SLASH] + q[0] + Join(q[1..])
  }

  /** Components are non-empty and slash-free. */
  lemma {:induction false} PartsArePlain(path: seq<Byte>, i: nat, part: Name)
    requires SLASH !in part
    ensures forall k :: 0 <= k < |PartsFrom(path, i, part)| ==> Plain(PartsFrom(path, i, part)[k])
    decreases |path| - i
  {
    if i < |path| {
      if path[i] == SLASH {
        PartsArePlain(path, i + 1, []);
      } else {
        PartsArePlain(path, i + 1, part + [path[i]]);
      }
    }
  }

  lemma {:induction false} PartsOfTail(x: seq<Byte>, y: seq<Byte>, j: nat, part: Name)
    requires j <= |y|
    ensures PartsFrom(x + y, |x| + j, part) == PartsFrom(y, j, part)
    decreases |y| - j
  {
    if j < |y| {
      PartsOfTail(x, y, j + 1, []);
      PartsOfTail(x, y, j + 1, part + [y[j]]);
    }
  }

  lemma {:induction false} PartsSplit(a: seq<Byte>, b: seq<Byte>, i: nat, part: Name)
    requires i <= |a|
    ensures PartsFrom(a + [0x2F] + b, i, part) == PartsFrom(a, i, part) + Components(b)
    decreases |a| - i
  {
    var path := a + [0x2F] + b;
    if i == |a| {
      PartsOfTail(a + [0x2F], b, 0, []);
      assert path[i] == SLASH;
    } else {
      assert path[i] == a[i];
      PartsSplit(a, b, i + 1, []);
      PartsSplit(a, b, i + 1, part + [a[i]]);
    }
  }

  /** Paths split at each slash; a part without one is a name, an empty one is none. */
  lemma SplitsAtSlashes(a: seq<Byte>, b: seq<Byte>, name: Name)
    ensures Components([]) == [] && Components(a + [0x2F] + b) == Components(a) + Components(b)
    ensures name != [] && 0x2F !in name ==> Components(name) == [name]
  {
    PartsSplit(a, b, 0, []);
    if name != [] && 0x2F !in name {
      PartsOfName(name, 0, [], name);
      assert [] + name == name;
    }
  }

  lemma {:induction false} PartsOfName(path: seq<Byte>, i: nat, part: Name, name: Name)
    requires SLASH !in name && i + |name| <= |path| && path[i..i + |name|] == name
    ensures PartsFrom(path, i, part) == PartsFrom(path, i + |name|, part + name)
    decreases |name|
  {
    if name == [] {
      assert part + name == part;
    } else {
      assert path[i] == path[i..i + |name|][0] == name[0];
      assert path[i + 1..i + 1 + |name[1..]|] == name[1..] by {
        assert path[i..i + |name|][1..] == path[i + 1..i + |name|];
      }
      PartsOfName(path, i + 1, part + [name[0]], name[1..]);
      assert (part + [name[0]]) + name[1..] == part + name;
    }
  }

  lemma {:induction false} PartsOfJoin(path: seq<Byte>, i: nat, part: Name, q: Path)
    requires (forall k :: 0 <= k < |q| ==> Plain(q[k])) && i <= |path| && path[i..] == Join(q)
    ensures PartsFrom(path, i, part) == (if part == [] then [] else [part]) + q
    decreases |q|
  {
    hide Join;
    if q != [] {
      JoinedPart(path, i, q);
      PartsOfFirst(path, i, part, q[0]);
      PartsOfJoin(path, i + 1 + |q[0]|, q[0], q[1..]);
      assert [q[0]] + q[1..] == q;
    } else {
      NothingJoined();
    }
  }

  lemma NothingJoined()
    ensures Join([]) == []
  {
  }

  /** A slash ends the part before it, and then comes the name. */
  lemma PartsOfFirst(path: seq<Byte>, i: nat, part: Name, name: Name)
    requires Plain(name) && i + 1 + |name| <= |path| && path[i] == SLASH && path[i + 1..i + 1 + |name|] == name
    ensures PartsFrom(path, i, part)
            == (if part == [] then [] else [part]) + PartsFrom(path, i + 1 + |name|, name)
  {
    PartsOfName(path, i + 1, [], name);
    assert [] + name == name;
  }

  /** The first component of a joined path, and what follows it. */
  lemma JoinedPart(path: seq<Byte>, i: nat, q: Path)
    requires q != [] && i <= |path| && path[i..] == Join(q)
    ensures i + 1 + |q[0]| <= |path| && path[i] == SLASH && path[i + 1..i + 1 + |q[0]|] == q[0]
    ensures path[i + 1 + |q[0]|..] == Join(q[1..])
  {
    hide PartsFrom;
    var rest := path[i..];
    assert path[i] == rest[0];
    assert path[i + 1..i + 1 + |q[0]|] == rest[1..1 + |q[0]|] == q[0];
    assert path[i + 1 + |q[0]|..] == rest[1 + |q[0]|..];
  }

  /** Every sequence of plain names is the component list of its slash-joined path. */
  lemma ComponentsOfJoin(q: Path)
    requires forall k :: 0 <= k < |q| ==> Plain(q[k])
    ensures Components(Join(q)) == q
  {
    assert Join(q)[0..] == Join(q);
    PartsOfJoin(Join(q), 0, [], q);
  }
}
