/** Little-endian integers, as `ByteWriter`/`ByteReader` and raw `u64` memory
    accesses lay them out: the encoding of `v` in `n` bytes and its inverse. */
module LittleEndian {

  type Byte = b: int | 0 <= b < 256

  const WORD_LIMIT: nat := 0x1_0000_0000_0000_0000

  /** A 64-bit machine word. */
  type Word = w: int | 0 <= w < WORD_LIMIT

  function Pow256(n: nat): (p: nat)
    ensures p >= 1
  {
    if n == 0 then 1 else 256 * Pow256(n - 1)
  }

  function Encode(v: nat, n: nat): (s: seq<Byte>)
    ensures |s| == n
    decreases n
  {
    if n == 0 then [] else [v % 256] + Encode(v / 256, n - 1)
  }

  function Decode(s: seq<Byte>): (v: nat)
    ensures v < Pow256(|s|)
  {
    if s == [] then 0 else s[0] + 256 * Decode(s[1..])
  }

  /** Reading back what was written, for every value that fits. */
  lemma {:induction false} DecodeEncode(v: nat, n: nat)
    requires v < Pow256(n)
    ensures Decode(Encode(v, n)) == v
    decreases n
  {
    if n > 0 {
      DecodeEncode(v / 256, n - 1);
      assert Encode(v, n)[1..] == Encode(v / 256, n - 1);
    }
  }

  /** Writing back what was read. */
  lemma {:induction false} EncodeDecode(s: seq<Byte>)
    ensures Encode(Decode(s), |s|) == s
  {
    if s != [] {
      EncodeDecode(s[1..]);
      assert Decode(s) % 256 == s[0] && Decode(s) / 256 == Decode(s[1..]);
    }
  }

  lemma PowersOf256()
    ensures Pow256(1) == 0x100 && Pow256(2) == 0x1_0000
    ensures Pow256(4) == 0x1_0000_0000 && Pow256(8) == WORD_LIMIT
  {
    assert Pow256(3) == 0x100_0000;
    assert Pow256(5) == 0x100_0000_0000 && Pow256(6) == 0x1_0000_0000_0000;
    assert Pow256(7) == 0x100_0000_0000_0000;
  }

  lemma {:induction false} EncodeZero(n: nat)
    ensures Encode(0, n) == seq(n, _ => 0)
  {
    if n > 0 {
      EncodeZero(n - 1);
    }
  }
}
