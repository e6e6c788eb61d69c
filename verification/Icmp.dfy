/** ICMP echo messages (cibos-net/src/icmp.rs; RFC 792, Echo or Echo Reply Message). */
module Icmp {
  import opened LittleEndian
  import opened InternetChecksum
  import opened NetBytes

  const HEADER_LEN: nat := 8
  const ECHO_REPLY: Byte := 0
  const ECHO_REQUEST: Byte := 8

  datatype Echo = Echo(isReply: bool, id: nat, sequence: nat, payload: seq<Byte>)

  predicate Fits(e: Echo) {
    e.id <= U16_MAX && e.sequence <= U16_MAX
  }

  function WithChecksum(e: Echo, csum: nat): (b: seq<Byte>)
    requires Fits(e) && csum <= U16_MAX
    ensures |b| == HEADER_LEN + |e.payload|
  {
    [if e.isReply then ECHO_REPLY else ECHO_REQUEST, 0] + Be16(csum) + (Be16(e.id) + Be16(e.sequence) + e.payload)
  }

  function Encode(e: Echo): (b: seq<Byte>)
    requires Fits(e)
    ensures |b| == HEADER_LEN + |e.payload|
  {
    WithChecksum(e, Checksum(WithChecksum(e, 0)))
  }

  function Parse(buf: seq<Byte>): Result<Echo> {
    if |buf| < HEADER_LEN then Err(Truncated)
    else if buf[0] != ECHO_REPLY && buf[0] != ECHO_REQUEST then Err(Malformed)
    else if Checksum(buf) != 0 then Err(BadChecksum)
    else Ok(Echo(buf[0] == ECHO_REPLY, WordAt(buf, 4), WordAt(buf, 6), buf[HEADER_LEN..]))
  }

  lemma EncodingChecks(e: Echo)
    requires Fits(e)
    ensures Checksum(Encode(e)) == 0
  {
    hide WordSum, Complement;
    var front: seq<Byte> := [if e.isReply then ECHO_REPLY else ECHO_REQUEST, 0];
    var back: seq<Byte> := Be16(e.id) + Be16(e.sequence) + e.payload;
    var sum := WordSum(WithChecksum(e, 0));
    assert Be16(0) == [0, 0];
    FieldSum(front, Complement(sum % U32_LIMIT), back);
    WrappedComplementChecks(sum);
  }

  /** Parsing a built message recovers it, for payloads of any length and parity: the
      32-bit sum may wrap around when the message is built, and then wraps alike when it is read. */
  lemma RoundTrip(e: Echo)
    requires Fits(e)
    ensures Parse(Encode(e)) == Ok(e)
  {
    hide Checksum;
    var b := Encode(e);
    EncodingChecks(e);
    assert b[4..6] == Be16(e.id) && b[6..8] == Be16(e.sequence) && b[HEADER_LEN..] == e.payload;
    Be16Reads(b, 4, e.id);
    Be16Reads(b, 6, e.sequence);
  }

  method Build(out: array<Byte>, e: Echo) returns (r: Result<nat>)
    requires Fits(e)
    modifies out
    ensures r == if out.Length < HEADER_LEN + |e.payload| then Err(BufferTooSmall) else Ok(HEADER_LEN + |e.payload|)
    ensures out[..] == if r.Ok? then Over(old(out[..]), 0, Encode(e)) else old(out[..])
  {
    hide Checksum, Be16, Over;
    var total := HEADER_LEN + |e.payload|;
    if out.Length < total {
      return Err(BufferTooSmall);
    }
    var kind: seq<Byte> := [if e.isReply then ECHO_REPLY else ECHO_REQUEST, 0];
    ghost var before, back := out[..], Be16(e.id) + Be16(e.sequence) + e.payload;
    OverNothing(before);
    PutNext(out, kind, 0, before, []);
    assert [] + kind == kind;
    PutNext(out, Be16(0), 2, before, kind);
    PutNext(out, Be16(e.id) + Be16(e.sequence) + e.payload, 4, before, kind + Be16(0));
    OverFront(before, WithChecksum(e, 0));
    var csum := Compute(out[..total]);
    PutField(out, Be16(csum), 2, before, kind, Be16(0), back);
    return Ok(total);
  }
}
