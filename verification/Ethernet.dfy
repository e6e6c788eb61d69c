/** Ethernet II frames (cibos-net/src/ethernet.rs). */
module Ethernet {
  import opened LittleEndian
  import opened InternetChecksum
  import opened NetBytes

  const HEADER_LEN: nat := 14

  datatype Frame = Frame(dst: Mac, src: Mac, ethertype: nat, payload: seq<Byte>)

  function Encode(f: Frame): (b: seq<Byte>)
    requires f.ethertype <= U16_MAX
    ensures |b| == HEADER_LEN + |f.payload|
  {
    f.dst + f.src + Be16(f.ethertype) + f.payload
  }

  function Parse(buf: seq<Byte>): Result<Frame> {
    if |buf| < HEADER_LEN then Err(Truncated)
    else Ok(Frame(buf[..6], buf[6..12], WordAt(buf, 12), buf[HEADER_LEN..]))
  }

  /** Frames and buffers of at least a header correspond one to one; padding at the end of
      a frame is payload, as the header holds no length. */
  lemma RoundTrip(f: Frame, buf: seq<Byte>, padding: seq<Byte>)
    requires f.ethertype <= U16_MAX
    ensures Parse(Encode(f) + padding) == Ok(f.(payload := f.payload + padding))
    ensures |buf| >= HEADER_LEN ==> Encode(Parse(buf).value) == buf
  {
    var b := Encode(f) + padding;
    assert b[..6] == f.dst && b[6..12] == f.src && b[HEADER_LEN..] == f.payload + padding;
    assert b[12..14] == Be16(f.ethertype);
    Be16Reads(b, 12, f.ethertype);
    if |buf| >= HEADER_LEN {
      assert Be16(WordAt(buf, 12)) == buf[12..14];
      assert buf == buf[..6] + buf[6..12] + buf[12..14] + buf[14..];
    }
  }

  method Build(out: array<Byte>, f: Frame) returns (r: Result<nat>)
    requires f.ethertype <= U16_MAX
    modifies out
    ensures r == if out.Length < HEADER_LEN + |f.payload| then Err(BufferTooSmall) else Ok(HEADER_LEN + |f.payload|)
    ensures out[..] == if r.Ok? then Over(old(out[..]), 0, Encode(f)) else old(out[..])
  {
    hide Over, Be16;
    var total := HEADER_LEN + |f.payload|;
    ghost var before := out[..];
    if out.Length < total {
      return Err(BufferTooSmall);
    }
    OverNothing(before);
    PutNext(out, f.dst, 0, before, []);
    PutNext(out, f.src, 6, before, [] + f.dst);
    PutNext(out, Be16(f.ethertype), 12, before, [] + f.dst + f.src);
    PutNext(out, f.payload, HEADER_LEN, before, [] + f.dst + f.src + Be16(f.ethertype));
    assert [] + f.dst == f.dst;
    return Ok(total);
  }
}
