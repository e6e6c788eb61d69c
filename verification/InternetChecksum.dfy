/** The internet checksum (cibos-net/src/lib.rs; sections 1 and 2 of RFC 1071): sums of
    big-endian 16-bit words, folding of carries, and what a zero checksum detects. */
module InternetChecksum {
  import opened LittleEndian
  import opened Division

  const U16_MAX: nat := 0xFFFF
  const U32_LIMIT: nat := 0x1_0000_0000

  /** The longest input whose sum cannot leave 32 bits. */
  const MAX_SUMMED: nat := 131074

  function Be16(v: nat): (b: seq<Byte>)
    requires v <= U16_MAX
    ensures |b| == 2
  {
    [v / 256, v % 256]
  }

  function WordAt(b: seq<Byte>, i: nat): (w: nat)
    requires i + 1 < |b|
    ensures w <= U16_MAX
  {
    b[i] as nat * 256 + b[i + 1]
  }

  /** Sum of the words, an odd last byte padded with zero on the right. */
  function WordSum(d: seq<Byte>): nat {
    if |d| == 0 then 0 else if |d| == 1 then d[0] * 256 else d[0] * 256 + d[1] + WordSum(d[2..])
  }

  function Fold(sum: nat): nat {
    if sum <= U16_MAX then sum else Fold(sum % 0x1_0000 + sum / 0x1_0000)
  }

  /** The one's complement of the folded sum. */
  function Complement(sum: nat): (c: nat)
    ensures c <= U16_MAX
  {
    FoldSpec(sum);
    U16_MAX - Fold(sum)
  }

  /** What the code computes: its 32-bit sum wraps around in a release build (and stops a
      build with overflow checks). */
  function Checksum(d: seq<Byte>): (c: nat)
    ensures c <= U16_MAX
  {
    Complement(WordSum(d) % U32_LIMIT)
  }

  /** The checksum of RFC 1071, over a sum of any size. */
  function ExactChecksum(d: seq<Byte>): (c: nat)
    ensures c <= U16_MAX
  {
    Complement(WordSum(d))
  }

  // ---- folding -------------------------------------------------------------

  /** Folding keeps the value modulo 65535, and reaches zero only from zero. */
  lemma {:induction false} FoldSpec(sum: nat)
    ensures Fold(sum) <= U16_MAX && Fold(sum) % U16_MAX == sum % U16_MAX && (Fold(sum) == 0 <==> sum == 0)
  {
    if sum > U16_MAX {
      var lo, hi := sum % 0x1_0000, sum / 0x1_0000;
      FoldSpec(lo + hi);
      assert sum == hi * 0x1_0000 + lo == hi * U16_MAX + (lo + hi);
      AddMultiple(lo + hi, hi);
    }
  }

  lemma AddMultiple(v: nat, q: nat)
    ensures (q * U16_MAX + v) % U16_MAX == v % U16_MAX
  {
    DivMod(q * U16_MAX + v, U16_MAX, q + v / U16_MAX, v % U16_MAX);
  }

  /** A sum checks out exactly when it is a positive multiple of 65535. */
  lemma ZeroComplement(sum: nat)
    ensures Complement(sum) == 0 <==> sum > 0 && sum % U16_MAX == 0
  {
    FoldSpec(sum);
  }

  /** Adding a sum's complement, or 0xFFFF in place of a zero one, makes it check out. */
  lemma ComplementChecks(sum: nat)
    ensures Complement(sum + Complement(sum)) == 0
    ensures Complement(sum) == 0 ==> Complement(sum + U16_MAX) == 0
  {
    FoldSpec(sum);
    var f, q := Fold(sum), sum / U16_MAX;
    assert sum == q * U16_MAX + sum % U16_MAX;
    ZeroComplement(sum + (U16_MAX - f));
    ZeroComplement(sum + U16_MAX);
    if f == U16_MAX {
      assert f % U16_MAX == 0;
      AddMultiple(U16_MAX, q);
      AddMultiple(0, q);
    } else {
      assert f % U16_MAX == f;
      assert sum + (U16_MAX - f) == q * U16_MAX + U16_MAX;
      AddMultiple(U16_MAX, q);
    }
  }

  /** The same when the sum wraps around at 32 bits: filling in the complement never wraps it again. */
  lemma WrappedComplementChecks(sum: nat)
    ensures Complement((sum + Complement(sum % U32_LIMIT)) % U32_LIMIT) == 0
  {
    var s := sum % U32_LIMIT;
    var c := Complement(s);
    ComplementChecks(s);
    ZeroComplement(s + c);
    FoldSpec(s);
    var k := (s + c) / U16_MAX;
    assert s + c == k * U16_MAX;
    assert s + c < U32_LIMIT;
    DivMod(sum + c, U32_LIMIT, sum / U32_LIMIT, s + c);
  }

  // ---- sums ----------------------------------------------------------------

  lemma {:induction false} WordSumSplit(a: seq<Byte>, b: seq<Byte>)
    requires |a| % 2 == 0
    ensures WordSum(a + b) == WordSum(a) + WordSum(b)
  {
    if |a| == 0 {
      assert a + b == b;
    } else {
      assert (a + b)[2..] == a[2..] + b;
      WordSumSplit(a[2..], b);
    }
  }

  lemma {:induction false} WordSumBound(d: seq<Byte>)
    ensures WordSum(d) <= (|d| + 1) / 2 * U16_MAX
  {
    if |d| > 1 {
      WordSumBound(d[2..]);
    }
  }

  lemma {:induction false} WordSumOnes(n: nat)
    ensures WordSum(seq(2 * n, _ => 0xFF)) == n * U16_MAX
  {
    if n > 0 {
      WordSumOnes(n - 1);
      assert seq<Byte>(2 * n, _ => 0xFF)[2..] == seq<Byte>(2 * (n - 1), _ => 0xFF);
    }
  }

  /** A length is safe for 32-bit sums exactly when it is at most 131074 bytes. */
  lemma NoOverflowExactly(n: nat)
    ensures n <= MAX_SUMMED ==> forall d: seq<Byte> :: |d| == n ==> WordSum(d) < U32_LIMIT
    ensures n > MAX_SUMMED ==> exists d: seq<Byte> :: |d| == n && WordSum(d) >= U32_LIMIT
  {
    if n <= MAX_SUMMED {
      forall d: seq<Byte> | |d| == n
        ensures WordSum(d) < U32_LIMIT
      {
        WordSumBound(d);
      }
    } else {
      var m := n / 2;
      var ones, rest := seq<Byte>(2 * m, _ => 0xFF), seq<Byte>(n - 2 * m, _ => 0xFF);
      WordSumOnes(m);
      WordSumSplit(ones, rest);
      assert |ones + rest| == n && WordSum(ones + rest) >= U32_LIMIT;
    }
  }

  /** Up to 131074 bytes the code's checksum is that of RFC 1071. */
  lemma ShortIsExact(d: seq<Byte>)
    requires |d| <= MAX_SUMMED
    ensures Checksum(d) == ExactChecksum(d)
  {
    NoOverflowExactly(|d|);
  }

  /** The code's checksum is that of RFC 1071 exactly when the wraps lost are a multiple of 65535
      and do not leave a zero sum behind. */
  lemma WrapExactly(d: seq<Byte>)
    ensures var wraps, left := WordSum(d) / U32_LIMIT, WordSum(d) % U32_LIMIT;
            Checksum(d) == ExactChecksum(d) <==> wraps % U16_MAX == 0 && (wraps == 0 || left > 0)
  {
    hide WordSum, Fold;
    var wraps, left := WordSum(d) / U32_LIMIT, WordSum(d) % U32_LIMIT;
    SameFold(WordSum(d), left);
    assert WordSum(d) == (wraps * 65537) * U16_MAX + (wraps + left);
    AddMultiple(wraps + left, wraps * 65537);
    SameShift(wraps, left);
  }

  /** The shortest data on which they differ has 131076 bytes: all ones, one wrap. */
  lemma WrapExample()
    ensures var d := seq<Byte>(131076, _ => 0xFF);
            WordSum(d) / U32_LIMIT == 1 && Checksum(d) != ExactChecksum(d)
  {
    hide WordSum, Complement;
    WordSumOnes(65538);
    WrapExactly(seq<Byte>(131076, _ => 0xFF));
  }

  lemma SameFold(a: nat, b: nat)
    ensures Complement(a) == Complement(b) <==> a % U16_MAX == b % U16_MAX && (a == 0 <==> b == 0)
  {
    FoldSpec(a);
    FoldSpec(b);
  }

  lemma SameShift(a: nat, b: nat)
    ensures (a + b) % U16_MAX == b % U16_MAX <==> a % U16_MAX == 0
  {
    var qa, qb, q := a / U16_MAX, b / U16_MAX, (a + b) / U16_MAX;
    assert a == qa * U16_MAX + a % U16_MAX && b == qb * U16_MAX + b % U16_MAX;
    assert a + b == q * U16_MAX + (a + b) % U16_MAX;
  }

  /** Filling in a checksum field at an even offset, where zeros stood, adds its value. */
  lemma FieldSum(front: seq<Byte>, v: nat, back: seq<Byte>)
    requires |front| % 2 == 0 && v <= U16_MAX
    ensures WordSum(front + Be16(v) + back) == WordSum(front + [0, 0] + back) + v
  {
    WordSumSplit(front + Be16(v), back);
    WordSumSplit(front, Be16(v));
    WordSumSplit(front + [0, 0], back);
    WordSumSplit(front, [0, 0]);
    assert Be16(v)[2..] == [] && WordSum(Be16(v)) == v;
    assert WordSum([0, 0]) == 0 by { assert [0, 0][2..] == []; }
  }

  /** Changing one aligned word of data that checks out goes unnoticed exactly when the
      words agree modulo 65535 and the data does not become all zeros. */
  lemma OneWordChange(front: seq<Byte>, w: nat, w': nat, back: seq<Byte>)
    requires |front| % 2 == 0 && w <= U16_MAX && w' <= U16_MAX
    requires ExactChecksum(front + Be16(w) + back) == 0
    ensures ExactChecksum(front + Be16(w') + back) == 0 <==>
              w % U16_MAX == w' % U16_MAX && WordSum(front + Be16(w') + back) > 0
  {
    FieldSum(front, w, back);
    FieldSum(front, w', back);
    var s := WordSum(front + [0, 0] + back);
    ZeroComplement(s + w);
    ZeroComplement(s + w');
    SameResidue(s, w, w');
  }

  lemma SameResidue(s: nat, w: nat, w': nat)
    requires (s + w) % U16_MAX == 0
    ensures (s + w') % U16_MAX == 0 <==> w % U16_MAX == w' % U16_MAX
  {
    var a, b := (s + w) / U16_MAX, (s + w') / U16_MAX;
    var q, q' := w / U16_MAX, w' / U16_MAX;
    assert s + w == a * U16_MAX && w == q * U16_MAX + w % U16_MAX && w' == q' * U16_MAX + w' % U16_MAX;
  }

  // ---- the loops -----------------------------------------------------------

  method Accumulate(start: nat, d: seq<Byte>) returns (sum: nat)
    requires start < U32_LIMIT
    ensures sum == (start + WordSum(d)) % U32_LIMIT
  {
    hide WordSum;
    sum := start;
    var i := 0;
    assert d[0..] == d;
    while i + 1 < |d|
      invariant i <= |d| && i % 2 == 0 && sum < U32_LIMIT
      invariant (sum + WordSum(d[i..])) % U32_LIMIT == (start + WordSum(d)) % U32_LIMIT
    {
      var word := WordAt(d, i);
      NextWord(d, i);
      WrapOnce(sum + word, WordSum(d[i + 2..]));
      sum := (sum + word) % U32_LIMIT;
      i := i + 2;
    }
    LastWord(d, i);
    if i < |d| {
      sum := (sum + d[i] as nat * 256) % U32_LIMIT;
    }
  }

  lemma NextWord(d: seq<Byte>, i: nat)
    requires i + 1 < |d|
    ensures WordSum(d[i..]) == WordAt(d, i) + WordSum(d[i + 2..])
  {
    assert d[i..][2..] == d[i + 2..];
  }

  lemma LastWord(d: seq<Byte>, i: nat)
    requires i <= |d| <= i + 1
    ensures WordSum(d[i..]) == if i < |d| then d[i] as nat * 256 else 0
  {
  }

  lemma WrapOnce(a: nat, b: nat)
    ensures (a % U32_LIMIT + b) % U32_LIMIT == (a + b) % U32_LIMIT
  {
    var q := a / U32_LIMIT;
    var x := a % U32_LIMIT + b;
    DivMod(a + b, U32_LIMIT, q + x / U32_LIMIT, x % U32_LIMIT);
  }

  method FoldSum(start: nat) returns (c: nat)
    ensures c == Complement(start)
  {
    var sum := start;
    while sum / 0x1_0000 != 0
      invariant Fold(sum) == Fold(start)
      decreases sum
    {
      sum := sum % 0x1_0000 + sum / 0x1_0000;
    }
    FoldSpec(start);
    c := U16_MAX - sum;
  }

  method Compute(d: seq<Byte>) returns (c: nat)
    ensures c == Checksum(d)
  {
    var sum := Accumulate(0, d);
    c := FoldSum(sum);
  }
}
