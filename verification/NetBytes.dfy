/** What the packet formats share: errors, and writing bytes into a caller's buffer. */
module NetBytes {
  import opened LittleEndian
  import opened InternetChecksum

  datatype NetError = Truncated | Malformed | BufferTooSmall | BadChecksum

  datatype Result<+T> = Ok(value: T) | Err(error: NetError)

  type Mac = a: seq<Byte> | |a| == 6 witness [0, 0, 0, 0, 0, 0]

  type Ipv4Addr = a: seq<Byte> | |a| == 4 witness [0, 0, 0, 0]

  /** `b` with the bytes at `off` replaced. */
  function Over(b: seq<Byte>, off: nat, bytes: seq<Byte>): (r: seq<Byte>)
    requires off + |bytes| <= |b|
    ensures |r| == |b|
  {
    b[..off] + bytes + b[off + |bytes|..]
  }

  method Put(out: array<Byte>, off: nat, bytes: seq<Byte>)
    requires off + |bytes| <= out.Length
    modifies out
    ensures out[..] == Over(old(out[..]), off, bytes)
  {
    var i := 0;
    while i < |bytes|
      invariant i <= |bytes|
      invariant forall j: nat :: j < out.Length ==> out[j] == if off <= j < off + i then bytes[j - off] else old(out[j])
    {
      out[off + i] := bytes[i];
      i := i + 1;
    }
  }

  /** Write `bytes` right after the `done` bytes at the front of the buffer. */
  method PutNext(out: array<Byte>, bytes: seq<Byte>, done: nat, ghost before: seq<Byte>, ghost written: seq<Byte>)
    requires |before| == out.Length && |written| == done && done + |bytes| <= out.Length
             && out[..] == Over(before, 0, written)
    modifies out
    ensures out[..] == Over(before, 0, written + bytes)
  {
    Put(out, done, bytes);
    assert out[..] == Over(before, 0, written + bytes);
  }

  /** Replace a field of what was written. */
  method PutField(out: array<Byte>, bytes: seq<Byte>, off: nat, ghost before: seq<Byte>, ghost front: seq<Byte>,
                  ghost field: seq<Byte>, ghost back: seq<Byte>)
    requires |before| == out.Length && |front| == off && |field| == |bytes| && |front + field + back| <= out.Length
    requires out[..] == Over(before, 0, front + field + back)
    modifies out
    ensures out[..] == Over(before, 0, front + bytes + back)
  {
    Put(out, off, bytes);
    assert out[..] == Over(before, 0, front + bytes + back);
  }

  lemma OverNothing(b: seq<Byte>)
    ensures Over(b, 0, []) == b
  {
  }

  lemma OverFront(b: seq<Byte>, x: seq<Byte>)
    requires |x| <= |b|
    ensures Over(b, 0, x)[..|x|] == x
  {
  }

  /** Big-endian fields read back. */
  lemma Be16Reads(b: seq<Byte>, i: nat, v: nat)
    requires v <= U16_MAX && i + 2 <= |b| && b[i..i + 2] == Be16(v)
    ensures WordAt(b, i) == v
  {
    assert b[i] == b[i..i + 2][0] && b[i + 1] == b[i..i + 2][1];
  }
}
