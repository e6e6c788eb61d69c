/** The kernel's hash-counter random generator (cibos-kernel/src/entropy.rs). The hash is
    a parameter; what is proved is that the generator reads one stream of bytes in order
    and that bounded draws are unbiased. */
module Entropy {
  import opened Division
  import opened LittleEndian

  const BLOCK_BYTES: nat := 32
  const U64_MAX: nat := WORD_LIMIT - 1

  type Digest = d: seq<Byte> | |d| == BLOCK_BYTES witness seq(BLOCK_BYTES, _ => 0)

  // ---- bounded draws -------------------------------------------------------

  /** Draws at or above the zone are rejected. */
  function Zone(bound: nat): nat
    requires bound > 0
  {
    U64_MAX - U64_MAX % bound
  }

  lemma ZoneIsMultiple(bound: nat)
    requires 0 < bound <= U64_MAX
    ensures Zone(bound) == (U64_MAX / bound) * bound && U64_MAX / bound > 0
  {
    DivBounds(U64_MAX, bound);
    assert U64_MAX == (U64_MAX / bound) * bound + U64_MAX % bound;
    assert U64_MAX / bound == 0 ==> U64_MAX < bound;
  }

  /** At least half of all 64-bit values are accepted, and exactly half only for 2^63. */
  lemma AcceptsHalf(bound: nat)
    requires 0 < bound <= U64_MAX
    ensures 2 * Zone(bound) >= WORD_LIMIT
    ensures 2 * Zone(bound) == WORD_LIMIT <==> 2 * bound == WORD_LIMIT
  {
    var q := U64_MAX / bound;
    ZoneIsMultiple(bound);
    DivBounds(U64_MAX, bound);
    assert (q + 1) * bound == q * bound + bound;
    if q == 1 {
      assert Zone(bound) == bound;
    } else {
      assert q * bound >= 2 * bound by { MulMono(2, q, bound); }
    }
  }

  /** Accepted draws with residue `r`, among the first `n` multiples of the bound. */
  function Preimages(bound: nat, n: nat, r: nat): set<nat>
    requires bound > 0
  {
    set v: nat | 0 <= v < n * bound && v % bound == r
  }

  lemma {:induction false} PreimageCount(bound: nat, n: nat, r: nat)
    requires r < bound
    ensures |Preimages(bound, n, r)| == n
  {
    if n > 0 {
      PreimageCount(bound, n - 1, r);
      var x := (n - 1) * bound + r;
      DivMod(x, bound, n - 1, r);
      assert n * bound == (n - 1) * bound + bound;
      forall v: nat | v < n * bound && v % bound == r
        ensures v < (n - 1) * bound || v == x
      {
        if v >= (n - 1) * bound {
          DivMod(v, bound, n - 1, v - (n - 1) * bound);
        }
      }
      assert Preimages(bound, n, r) == Preimages(bound, n - 1, r) + {x};
    }
  }

  /** Every value below the bound comes from equally many accepted draws. */
  lemma Unbiased(bound: nat, r: nat)
    requires r < bound <= U64_MAX
    ensures |set v: nat | v < Zone(bound) && v % bound == r| == U64_MAX / bound
  {
    ZoneIsMultiple(bound);
    PreimageCount(bound, U64_MAX / bound, r);
    assert (set v: nat | v < Zone(bound) && v % bound == r) == Preimages(bound, U64_MAX / bound, r);
  }

  // ---- the stream ----------------------------------------------------------

  /** Byte `pos` of the stream: a byte of the hash of the key and the block's number. */
  function StreamByte(hash: seq<Byte> -> Digest, key: Digest, pos: nat): Byte {
    hash(key + Encode(pos / BLOCK_BYTES % WORD_LIMIT, 8))[pos % BLOCK_BYTES]
  }

  function StreamBytes(hash: seq<Byte> -> Digest, key: Digest, pos: nat, n: nat): (s: seq<Byte>)
    ensures |s| == n
  {
    if n == 0 then [] else StreamBytes(hash, key, pos, n - 1) + [StreamByte(hash, key, pos + n - 1)]
  }

  /** The 64-bit value read at `pos`. */
  function StreamWord(hash: seq<Byte> -> Digest, key: Digest, pos: nat): (w: nat)
    ensures w < WORD_LIMIT
  {
    PowersOf256();
    Decode(StreamBytes(hash, key, pos, 8))
  }

  /** Block `n` of the stream: the hash of the key and the block number, which wraps at 2^64. */
  lemma StreamBlocks(hash: seq<Byte> -> Digest, key: Digest, n: nat)
    ensures StreamBytes(hash, key, 32 * n, 32) == hash(key + Encode(n % 0x1_0000_0000_0000_0000, 8))
  {
    hide Encode;
    var s := StreamBytes(hash, key, 32 * n, 32);
    forall i: nat | i < 32
      ensures s[i] == hash(key + Encode(n % WORD_LIMIT, 8))[i]
    {
      StreamByteAt(hash, key, 32 * n, 32, i);
      DivMod(32 * n + i, 32, n, i);
    }
  }

  lemma {:induction false} StreamByteAt(hash: seq<Byte> -> Digest, key: Digest, pos: nat, n: nat, i: nat)
    requires i < n
    ensures StreamBytes(hash, key, pos, n)[i] == StreamByte(hash, key, pos + i)
  {
    hide StreamByte;
    if i < n - 1 {
      StreamByteAt(hash, key, pos, n - 1, i);
    }
  }

  /** Draw number `k` from `pos` on is accepted. */
  predicate Accepted(hash: seq<Byte> -> Digest, key: Digest, pos: nat, k: nat, bound: nat)
    requires bound > 0
  {
    StreamWord(hash, key, pos + 8 * k) < Zone(bound)
  }

  /** Some draw from `pos` on is accepted. */
  ghost predicate Eventually(hash: seq<Byte> -> Digest, key: Digest, pos: nat, bound: nat)
    requires bound > 0
  {
    exists k: nat :: Accepted(hash, key, pos, k, bound)
  }

  ghost predicate Productive(hash: seq<Byte> -> Digest, key: Digest) {
    forall pos: nat, bound: nat {:trigger Eventually(hash, key, pos, bound)} ::
      0 < bound <= U64_MAX ==> Eventually(hash, key, pos, bound)
  }

  /** `r` is the bounded draw at `pos`: the first accepted word, reduced. The stream goes on at `end`. */
  ghost predicate IsDraw(hash: seq<Byte> -> Digest, key: Digest, pos: nat, bound: nat, r: nat, end: nat)
    requires bound > 0
  {
    exists k: nat :: FirstAccepted(hash, key, pos, k, bound)
                     && r == StreamWord(hash, key, pos + 8 * k) % bound && end == pos + 8 * (k + 1)
  }

  ghost predicate FirstAccepted(hash: seq<Byte> -> Digest, key: Digest, pos: nat, k: nat, bound: nat)
    requires bound > 0
  {
    Accepted(hash, key, pos, k, bound) && forall j: nat :: j < k ==> !Accepted(hash, key, pos, j, bound)
  }

  /** Draws are a function of the stream: the seed determines them. */
  lemma DrawsAreDetermined(hash: seq<Byte> -> Digest, key: Digest, pos: nat, bound: nat, r: nat, end: nat,
                           r': nat, end': nat)
    requires bound > 0 && IsDraw(hash, key, pos, bound, r, end) && IsDraw(hash, key, pos, bound, r', end')
    ensures r == r' && end == end'
  {
    hide Accepted, StreamWord;
    var k: nat :| FirstAccepted(hash, key, pos, k, bound)
                  && r == StreamWord(hash, key, pos + 8 * k) % bound && end == pos + 8 * (k + 1);
    var k': nat :| FirstAccepted(hash, key, pos, k', bound)
                   && r' == StreamWord(hash, key, pos + 8 * k') % bound && end' == pos + 8 * (k' + 1);
    assert k == k';
  }

  lemma NextCounter(n: nat)
    ensures (n + 1) % WORD_LIMIT == if n % WORD_LIMIT + 1 == WORD_LIMIT then 0 else n % WORD_LIMIT + 1
  {
    var q, r := n / WORD_LIMIT, n % WORD_LIMIT;
    if r + 1 == WORD_LIMIT {
      DivMod(n + 1, WORD_LIMIT, q + 1, 0);
    } else {
      DivMod(n + 1, WORD_LIMIT, q, r + 1);
    }
  }

  class Csprng {
    const hash: seq<Byte> -> Digest
    const key: Digest
    var counter: nat
    var block: Digest
    var blockPos: nat
    /** Number of the current block, counting every refill. */
    ghost var blockNo: nat

    ghost predicate Valid()
      reads this
    {
      && blockPos <= BLOCK_BYTES && counter == (blockNo + 1) % WORD_LIMIT
      && block == hash(key + Encode(blockNo % WORD_LIMIT, 8))
    }

    /** Bytes of the stream already read. */
    ghost function Pos(): nat
      reads this
    {
      blockNo * BLOCK_BYTES + blockPos
    }

    constructor (hash: seq<Byte> -> Digest, seed: Digest)
      ensures Valid() && Pos() == 0 && this.hash == hash && key == seed
    {
      this.hash, key, blockNo := hash, seed, 0;
      counter, block, blockPos := 1, hash(seed + Encode(0, 8)), 0;
    }

    method Refill()
      requires Valid() && blockPos == BLOCK_BYTES
      modifies this
      ensures Valid() && Pos() == old(Pos()) && blockPos == 0
    {
      hide Encode;
      NextCounter(blockNo + 1);
      block := hash(key + Encode(counter, 8));
      counter := if counter + 1 == WORD_LIMIT then 0 else counter + 1;
      blockPos, blockNo := 0, blockNo + 1;
    }

    /** The next byte of the stream. */
    method NextByte() returns (b: Byte)
      requires Valid()
      modifies this
      ensures Valid() && b == StreamByte(hash, key, old(Pos())) && Pos() == old(Pos()) + 1
    {
      hide Encode;
      if blockPos >= BLOCK_BYTES {
        Refill();
      }
      DivMod(Pos(), BLOCK_BYTES, blockNo, blockPos);
      b := block[blockPos];
      blockPos := blockPos + 1;
    }

    /** The next eight bytes, little-endian. */
    method NextWord() returns (w: nat)
      requires Valid()
      modifies this
      ensures Valid() && w == StreamWord(hash, key, old(Pos())) && Pos() == old(Pos()) + 8
    {
      hide Encode, Decode, StreamByte;
      var bytes := [];
      var i := 0;
      while i < 8
        invariant i <= 8 && Valid() && Pos() == old(Pos()) + i && bytes == StreamBytes(hash, key, old(Pos()), i)
      {
        var b := NextByte();
        bytes := bytes + [b];
        i := i + 1;
      }
      w := Decode(bytes);
    }

    /** The first accepted draw, reduced; draw `k` is known to be accepted. */
    method NextBounded(bound: nat, ghost k: nat) returns (r: nat, ghost drawn: nat)
      requires Valid() && 0 < bound <= U64_MAX && Accepted(hash, key, Pos(), k, bound)
      modifies this
      ensures Valid() && Pos() == old(Pos()) + 8 * (drawn + 1) && drawn <= k
      ensures Accepted(hash, key, old(Pos()), drawn, bound)
      ensures forall j: nat :: j < drawn ==> !Accepted(hash, key, old(Pos()), j, bound)
      ensures r < bound && r == StreamWord(hash, key, old(Pos()) + 8 * drawn) % bound
      ensures IsDraw(hash, key, old(Pos()), bound, r, Pos())
    {
      hide Encode, Decode, StreamBytes;
      var zone := U64_MAX - U64_MAX % bound;
      drawn := 0;
      while true
        invariant Valid() && Pos() == old(Pos()) + 8 * drawn && drawn <= k
        invariant forall j: nat :: j < drawn ==> !Accepted(hash, key, old(Pos()), j, bound)
        decreases k - drawn
      {
        var v := NextWord();
        if v < zone {
          assert FirstAccepted(hash, key, old(Pos()), drawn, bound);
          return v % bound, drawn;
        }
        assert !Accepted(hash, key, old(Pos()), drawn, bound);
        drawn := drawn + 1;
      }
    }
  }
}
