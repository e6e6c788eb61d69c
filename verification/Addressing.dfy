/** Virtual-address arithmetic of the four-level radix tree: level indices, page
    numbers, and the bitwise OR that joins a frame base with an in-page offset
    (cibos-kernel/src/paging.rs). */
module Addressing {
  import opened Division
  import opened PageEncoding

  const FRAME_SIZE: nat := 4096
  const ENTRIES: nat := 512

  // ---- virtual addresses ---------------------------------------------------

  /** Bytes covered by one entry at a level: `1 << (12 + 9 * (LEVELS - 1 - level))`. */
  function Span(level: nat): (s: nat)
    requires level < LEVELS
    ensures s > 0
  {
    match level
    case 0 => 0x80_0000_0000
    case 1 => 0x4000_0000
    case 2 => 0x20_0000
    case _ => 0x1000
  }

  function Index(v: nat, level: nat): (i: nat)
    requires level < LEVELS
    ensures i < ENTRIES
  {
    (v / Span(level)) % ENTRIES
  }

  /** The four level indices of an address, top level first. */
  type Path = s: seq<nat> | |s| == LEVELS && forall i :: 0 <= i < LEVELS ==> s[i] < ENTRIES
    witness [0, 0, 0, 0]

  function Indices(v: nat): Path {
    [Index(v, 0), Index(v, 1), Index(v, 2), Index(v, 3)]
  }

  /** The 36-bit page number of a 48-bit virtual address. */
  function PageOf(v: nat): nat {
    (v / FRAME_SIZE) % 0x10_0000_0000
  }

  /** `x` and `y` go through the same slot at level `l`. */
  predicate SameSlot(x: Path, y: Path, l: nat)
    requires l < LEVELS
  {
    x[..l + 1] == y[..l + 1]
  }

  lemma IndexOfPage(v: nat)
    ensures var p := PageOf(v);
            && Index(v, 0) == p / 0x800_0000 && Index(v, 1) == (p / 0x4_0000) % 512
            && Index(v, 2) == (p / 512) % 512 && Index(v, 3) == p % 512
  {
    var a := v / FRAME_SIZE;
    DivDiv(v, FRAME_SIZE, 512, 0x20_0000);
    DivDiv(v, FRAME_SIZE, 0x4_0000, 0x4000_0000);
    DivDiv(v, FRAME_SIZE, 0x800_0000, 0x80_0000_0000);
    DigitsOfPage(a);
  }

  lemma DigitsOfPage(a: nat)
    ensures var p := a % 0x10_0000_0000;
            && (a / 0x800_0000) % 512 == p / 0x800_0000 && (a / 0x4_0000) % 512 == (p / 0x4_0000) % 512
            && (a / 512) % 512 == (p / 512) % 512 && a % 512 == p % 512
  {
    var p, hi := a % 0x10_0000_0000, a / 0x10_0000_0000;
    DivMod(a, 0x800_0000, hi * 512 + p / 0x800_0000, p % 0x800_0000);
    DivMod(hi * 512 + p / 0x800_0000, 512, hi, p / 0x800_0000);
    DivMod(a, 0x4_0000, hi * 0x4_0000 + p / 0x4_0000, p % 0x4_0000);
    DivMod(hi * 0x4_0000 + p / 0x4_0000, 512, hi * 512 + p / 0x4_0000 / 512, p / 0x4_0000 % 512);
    DivMod(a, 512, hi * 0x800_0000 + p / 512, p % 512);
    DivMod(hi * 0x800_0000 + p / 512, 512, hi * 0x4_0000 + p / 512 / 512, p / 512 % 512);
  }

  /** A page number is determined by its four digits. */
  lemma PageFromDigits(p: nat, q: nat)
    requires p / 0x800_0000 == q / 0x800_0000 && (p / 0x4_0000) % 512 == (q / 0x4_0000) % 512
    ensures (p / 512) % 512 == (q / 512) % 512 <==> p / 512 == q / 512
    ensures p / 512 == q / 512 && p % 512 == q % 512 <==> p == q
  {
    DivDiv(p, 0x4_0000, 512, 0x800_0000);
    DivDiv(q, 0x4_0000, 512, 0x800_0000);
    DivDiv(p, 512, 512, 0x4_0000);
    DivDiv(q, 512, 512, 0x4_0000);
  }

  lemma PathStep(x: Path, k: nat)
    requires k < LEVELS
    ensures x[..k + 1] == x[..k] + [x[k]]
  {
  }

  lemma SlotPrefix(x: Path, y: Path, l: nat, k: nat)
    requires k <= l < LEVELS && SameSlot(y, x, l)
    ensures y[..k] == x[..k] && x[..l][..k] == y[..k] && y[k] == x[k]
    ensures k < l ==> x[..l][k] == y[k]
  {
    assert x[..k] == x[..l + 1][..k] && y[..k] == y[..l + 1][..k];
    assert x[k] == x[..l + 1][k] && y[k] == y[..l + 1][k];
  }

  lemma SameSlotIndices(x: Path, y: Path)
    ensures SameSlot(x, y, 2) <==> x[0] == y[0] && x[1] == y[1] && x[2] == y[2]
    ensures SameSlot(x, y, 3) <==> SameSlot(x, y, 2) && x[3] == y[3]
  {
    assert SameSlot(x, y, 2) ==> x[..3][0] == y[..3][0] && x[..3][1] == y[..3][1] && x[..3][2] == y[..3][2];
    assert SameSlot(x, y, 3) ==> x[..4][..3] == y[..4][..3] && x[..4][3] == y[..4][3];
    assert x[..4][..3] == x[..3] && y[..4][..3] == y[..3];
  }

  /** Slot sharing is page sharing: the same 4 KiB page at level 3, the same 2 MiB
      block at level 2. */
  lemma SameSlotIsSamePage(q: nat, v: nat)
    ensures SameSlot(Indices(q), Indices(v), 3) <==> PageOf(q) == PageOf(v)
    ensures SameSlot(Indices(q), Indices(v), 2) <==> PageOf(q) / 512 == PageOf(v) / 512
  {
    IndexOfPage(q);
    IndexOfPage(v);
    SameSlotIndices(Indices(q), Indices(v));
    var x, y := PageOf(q), PageOf(v);
    if Index(q, 0) == Index(v, 0) && Index(q, 1) == Index(v, 1) {
      PageFromDigits(x, y);
    } else if x / 512 == y / 512 {
      DivDiv(x, 512, 512, 0x4_0000);
      DivDiv(y, 512, 512, 0x4_0000);
      DivDiv(x, 512, 0x4_0000, 0x800_0000);
      DivDiv(y, 512, 0x4_0000, 0x800_0000);
      assert false;
    }
  }

  // ---- offsets inside a page or block ---------------------------------------

  lemma PageOffset(v: nat, o: nat)
    requires v % FRAME_SIZE == 0 && o < FRAME_SIZE
    ensures PageOf(v + o) == PageOf(v) && (v + o) % FRAME_SIZE == o
  {
  }

  lemma BlockOffset(v: nat, o: nat)
    requires v % 0x20_0000 == 0 && o < 0x20_0000
    ensures PageOf(v + o) / ENTRIES == PageOf(v) / ENTRIES && (v + o) % 0x20_0000 == o
  {
    var b := v / 0x20_0000;
    var p, r := o / FRAME_SIZE, o % FRAME_SIZE;
    DivMod(v, FRAME_SIZE, 512 * b, 0);
    DivMod(v + o, FRAME_SIZE, 512 * b + p, r);
    var hi, lo := b / 0x800_0000, b % 0x800_0000;
    DivMod(512 * b, 0x10_0000_0000, hi, 512 * lo);
    DivMod(512 * b + p, 0x10_0000_0000, hi, 512 * lo + p);
    DivMod(512 * lo + p, 512, lo, p);
    DivMod(512 * lo, 512, lo, 0);
    DivMod(v + o, 0x20_0000, b, o);
  }

  /** Page `j` of the 2 MiB block at `v`. */
  lemma BlockPage(v: nat, j: nat)
    requires v % 0x20_0000 == 0 && j < ENTRIES
    ensures PageOf(v + j * FRAME_SIZE) == (PageOf(v) / ENTRIES) * ENTRIES + j
  {
    var b := v / 0x20_0000;
    DivMod(v, FRAME_SIZE, 512 * b, 0);
    DivMod(v + j * FRAME_SIZE, FRAME_SIZE, 512 * b + j, 0);
    var hi, lo := b / 0x800_0000, b % 0x800_0000;
    DivMod(512 * b, 0x10_0000_0000, hi, 512 * lo);
    DivMod(512 * b + j, 0x10_0000_0000, hi, 512 * lo + j);
    DivMod(512 * lo, 512, lo, 0);
  }

  /** Two addresses in the same page at the same offset agree in their low 48 bits,
      hence at every level's span. */
  lemma SameOffset(q: nat, x: nat, level: nat)
    requires PageOf(q) == PageOf(x) && q % FRAME_SIZE == x % FRAME_SIZE && level < LEVELS
    ensures q % Span(level) == x % Span(level)
  {
    LowBits(q, level);
    LowBits(x, level);
  }

  lemma LowBits(v: nat, level: nat)
    requires level < LEVELS
    ensures v % Span(level) == (PageOf(v) * FRAME_SIZE + v % FRAME_SIZE) % Span(level)
  {
    var a := v / FRAME_SIZE;
    var hi := a / 0x10_0000_0000;
    var low := PageOf(v) * FRAME_SIZE + v % FRAME_SIZE;
    assert v == hi * 0x1_0000_0000_0000 + low;
    var d := Span(level);
    var k := match level case 0 => 0x200 case 1 => 0x4_0000 case 2 => 0x800_0000 case _ => 0x10_0000_0000;
    assert 0x1_0000_0000_0000 == k * d;
    var q, r := low / d, low % d;
    assert v == (hi * k + q) * d + r by {
      assert hi * 0x1_0000_0000_0000 == (hi * k) * d;
    }
    DivMod(v, d, hi * k + q, r);
  }

  // ---- joining a base and an offset ----------------------------------------

  /** Bitwise OR of naturals. */
  function BitOr(x: nat, y: nat): nat
    decreases x + y
  {
    if x == 0 then y else if y == 0 then x
    else 2 * BitOr(x / 2, y / 2) + if x % 2 == 1 || y % 2 == 1 then 1 else 0
  }

  /** ORing an offset into an aligned base adds it. */
  lemma {:induction false} OrIsAdd(x: nat, y: nat, k: nat)
    requires x % Pow2(k) == 0 && y < Pow2(k)
    ensures BitOr(x, y) == x + y
    decreases k
  {
    if k > 0 && x != 0 && y != 0 {
      var h := Pow2(k - 1);
      var m := x / (2 * h);
      assert x == 2 * (m * h);
      assert (x / 2) % h == 0 by {
        assert x / 2 == m * h;
        MultipleMod(m, h);
      }
      OrIsAdd(x / 2, y / 2, k - 1);
    }
  }

  lemma OffsetPowers()
    ensures Pow2(12) == 0x1000 && Pow2(21) == 0x20_0000
  {
    assert Pow2(4) == 16 && Pow2(8) == 256;
    assert Pow2(16) == 0x1_0000 && Pow2(20) == 0x10_0000;
  }
}
