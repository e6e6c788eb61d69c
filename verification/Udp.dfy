/** UDP datagrams with the IPv4 pseudo-header checksum (cibos-net/src/udp.rs; RFC 768). */
module Udp {
  import opened LittleEndian
  import opened InternetChecksum
  import opened NetBytes

  const HEADER_LEN: nat := 8
  const PROTOCOL: Byte := 17

  datatype Datagram = Datagram(srcPort: nat, dstPort: nat, payload: seq<Byte>)

  predicate Fits(d: Datagram) {
    d.srcPort <= U16_MAX && d.dstPort <= U16_MAX && HEADER_LEN + |d.payload| <= U16_MAX
  }

  function PseudoHeader(src: Ipv4Addr, dst: Ipv4Addr, length: nat): (b: seq<Byte>)
    requires length <= U16_MAX
    ensures |b| == 12
  {
    src + dst + [0, PROTOCOL] + Be16(length)
  }

  /** The datagram with `csum` in its checksum field. */
  function WithChecksum(d: Datagram, csum: nat): (b: seq<Byte>)
    requires Fits(d) && csum <= U16_MAX
    ensures |b| == HEADER_LEN + |d.payload|
  {
    (Be16(d.srcPort) + Be16(d.dstPort) + Be16(HEADER_LEN + |d.payload|)) + Be16(csum) + d.payload
  }

  /** Sum over pseudo-header and datagram. */
  function FullSum(src: Ipv4Addr, dst: Ipv4Addr, length: nat, b: seq<Byte>): nat
    requires length <= U16_MAX
  {
    WordSum(PseudoHeader(src, dst, length)) + WordSum(b)
  }

  /** The checksum field: never zero, which means "not computed". */
  function ChecksumField(d: Datagram, src: Ipv4Addr, dst: Ipv4Addr): (c: nat)
    requires Fits(d)
    ensures 0 < c <= U16_MAX
  {
    var c := Complement(FullSum(src, dst, HEADER_LEN + |d.payload|, WithChecksum(d, 0)));
    if c == 0 then U16_MAX else c
  }

  function Encode(d: Datagram, src: Ipv4Addr, dst: Ipv4Addr): (b: seq<Byte>)
    requires Fits(d)
    ensures |b| == HEADER_LEN + |d.payload|
  {
    WithChecksum(d, ChecksumField(d, src, dst))
  }

  function Parse(buf: seq<Byte>, src: Ipv4Addr, dst: Ipv4Addr): Result<Datagram> {
    if |buf| < HEADER_LEN then Err(Truncated)
    else
      var length := WordAt(buf, 4);
      if length < HEADER_LEN || length > |buf| then Err(Malformed)
      else if WordAt(buf, 6) != 0 && Complement(FullSum(src, dst, length, buf[..length])) != 0 then Err(BadChecksum)
      else Ok(Datagram(WordAt(buf, 0), WordAt(buf, 2), buf[HEADER_LEN..length]))
  }

  lemma FieldChecks(d: Datagram, src: Ipv4Addr, dst: Ipv4Addr)
    requires Fits(d)
    ensures Complement(FullSum(src, dst, HEADER_LEN + |d.payload|, Encode(d, src, dst))) == 0
  {
    hide WordSum, Complement, PseudoHeader;
    var front: seq<Byte> := Be16(d.srcPort) + Be16(d.dstPort) + Be16(HEADER_LEN + |d.payload|);
    var sum := FullSum(src, dst, HEADER_LEN + |d.payload|, WithChecksum(d, 0));
    assert Be16(0) == [0, 0];
    FieldSum(front, ChecksumField(d, src, dst), d.payload);
    ComplementChecks(sum);
  }

  /** Parsing a built datagram recovers it, odd lengths and trailing padding included. */
  lemma RoundTrip(d: Datagram, src: Ipv4Addr, dst: Ipv4Addr, padding: seq<Byte>)
    requires Fits(d)
    ensures Parse(Encode(d, src, dst) + padding, src, dst) == Ok(d)
  {
    hide FullSum, Complement, ChecksumField;
    var length := HEADER_LEN + |d.payload|;
    var b, buf := Encode(d, src, dst), Encode(d, src, dst) + padding;
    FieldChecks(d, src, dst);
    assert buf[..length] == b && b[HEADER_LEN..] == d.payload && buf[HEADER_LEN..length] == b[HEADER_LEN..];
    assert b[..2] == Be16(d.srcPort) && b[2..4] == Be16(d.dstPort) && b[4..6] == Be16(length);
    assert buf[0..2] == b[..2] && buf[2..4] == b[2..4] && buf[4..6] == b[4..6];
    Be16Reads(buf, 0, d.srcPort);
    Be16Reads(buf, 2, d.dstPort);
    Be16Reads(buf, 4, length);
  }

  /** The 32-bit sum of pseudo-header and datagram, which cannot wrap, folded. */
  method SumUp(src: Ipv4Addr, dst: Ipv4Addr, b: seq<Byte>) returns (csum: nat)
    requires |b| <= U16_MAX
    ensures csum == Complement(FullSum(src, dst, |b|, b))
  {
    hide WordSum, Complement, PseudoHeader;
    WordSumBound(PseudoHeader(src, dst, |b|));
    WordSumBound(b);
    var pseudo := Accumulate(0, PseudoHeader(src, dst, |b|));
    var sum := Accumulate(pseudo, b);
    csum := FoldSum(sum);
  }

  method Build(out: array<Byte>, src: Ipv4Addr, dst: Ipv4Addr, d: Datagram) returns (r: Result<nat>)
    requires d.srcPort <= U16_MAX && d.dstPort <= U16_MAX
    modifies out
    ensures r == if Fits(d) && HEADER_LEN + |d.payload| <= out.Length then Ok(HEADER_LEN + |d.payload|)
            else Err(BufferTooSmall)
    ensures out[..] == if r.Ok? then Over(old(out[..]), 0, Encode(d, src, dst)) else old(out[..])
  {
    hide WordSum, Complement, PseudoHeader, Be16, Over;
    var total := HEADER_LEN + |d.payload|;
    if out.Length < total || total > U16_MAX {
      return Err(BufferTooSmall);
    }
    ghost var before, ports := out[..], Be16(d.srcPort) + Be16(d.dstPort);
    OverNothing(before);
    PutNext(out, Be16(d.srcPort), 0, before, []);
    assert [] + Be16(d.srcPort) == Be16(d.srcPort);
    PutNext(out, Be16(d.dstPort), 2, before, Be16(d.srcPort));
    PutNext(out, Be16(total), 4, before, ports);
    PutNext(out, Be16(0), 6, before, ports + Be16(total));
    PutNext(out, d.payload, HEADER_LEN, before, ports + Be16(total) + Be16(0));
    OverFront(before, WithChecksum(d, 0));
    var csum := SumUp(src, dst, out[..total]);
    if csum == 0 {
      csum := U16_MAX;
    }
    PutField(out, Be16(csum), 6, before, ports + Be16(total), Be16(0), d.payload);
    return Ok(total);
  }
}
