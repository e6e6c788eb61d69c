/** IPv4 packets without options (cibos-net/src/ipv4.rs; section 3.1 of RFC 791). */
module Ipv4 {
  import opened LittleEndian
  import opened InternetChecksum
  import opened NetBytes

  const HEADER_LEN: nat := 20
  const DONT_FRAGMENT: nat := 0x4000

  datatype Packet = Packet(protocol: Byte, src: Ipv4Addr, dst: Ipv4Addr, ttl: Byte, payload: seq<Byte>)

  predicate Fits(p: Packet) {
    HEADER_LEN + |p.payload| <= U16_MAX
  }

  function Front(p: Packet, id: nat): (b: seq<Byte>)
    requires Fits(p) && id <= U16_MAX
    ensures |b| == 10
  {
    [0x45, 0] + Be16(HEADER_LEN + |p.payload|) + Be16(id) + Be16(DONT_FRAGMENT) + [p.ttl, p.protocol]
  }

  /** The header with `csum` in its checksum field. */
  function Header(p: Packet, id: nat, csum: nat): (b: seq<Byte>)
    requires Fits(p) && id <= U16_MAX && csum <= U16_MAX
    ensures |b| == HEADER_LEN
  {
    Front(p, id) + Be16(csum) + (p.src + p.dst)
  }

  function Encode(p: Packet, id: nat): (b: seq<Byte>)
    requires Fits(p) && id <= U16_MAX
    ensures |b| == HEADER_LEN + |p.payload|
  {
    Header(p, id, Checksum(Header(p, id, 0))) + p.payload
  }

  function Parse(buf: seq<Byte>): Result<Packet> {
    if |buf| < HEADER_LEN then Err(Truncated)
    else
      var version, ihl := buf[0] / 16, buf[0] % 16 * 4;
      if version != 4 || ihl < HEADER_LEN || |buf| < ihl then Err(Malformed)
      else
        var total := WordAt(buf, 2);
        if total < ihl || total > |buf| then Err(Malformed)
        else if Checksum(buf[..ihl]) != 0 then Err(BadChecksum)
        else Ok(Packet(buf[9], buf[12..16], buf[16..20], buf[8], buf[ihl..total]))
  }

  lemma HeaderChecks(p: Packet, id: nat)
    requires Fits(p) && id <= U16_MAX
    ensures Checksum(Header(p, id, Checksum(Header(p, id, 0)))) == 0
  {
    hide Front, WordSum, Complement, Be16;
    var back: seq<Byte> := p.src + p.dst;
    var sum := WordSum(Header(p, id, 0));
    ZeroField();
    FieldSum(Front(p, id), Complement(sum), back);
    ComplementChecks(sum);
    ShortIsExact(Header(p, id, 0));
    ShortIsExact(Header(p, id, Complement(sum)));
  }

  lemma ZeroField()
    ensures Be16(0) == [0, 0]
  {
  }

  /** Parsing a built packet recovers it, whatever follows it in the buffer. */
  lemma RoundTrip(p: Packet, id: nat, padding: seq<Byte>)
    requires Fits(p) && id <= U16_MAX
    ensures Parse(Encode(p, id) + padding) == Ok(p)
  {
    hide Checksum;
    var total := HEADER_LEN + |p.payload|;
    var h := Header(p, id, Checksum(Header(p, id, 0)));
    var buf := Encode(p, id) + padding;
    HeaderChecks(p, id);
    assert buf[..HEADER_LEN] == h && buf[HEADER_LEN..total] == p.payload;
    assert forall i :: 0 <= i < HEADER_LEN ==> buf[i] == h[i];
    assert h[..10] == Front(p, id);
    assert buf[2..4] == Be16(total);
    Be16Reads(buf, 2, total);
    assert h[12..16] == p.src && h[16..20] == p.dst;
    assert buf[12..16] == h[12..16] && buf[16..20] == h[16..20];
  }

  /** A header, options included, with one word changed to another not congruent to it is
      refused, unless the change reaches the version and header length. */
  lemma CorruptionRefused(buf: seq<Byte>, front: seq<Byte>, w: nat, w': nat, back: seq<Byte>)
    requires Parse(buf).Ok? && |front| % 2 == 0 && w <= U16_MAX && w' <= U16_MAX
    requires buf[..buf[0] % 16 * 4] == front + Be16(w) + back
    requires w % U16_MAX != w' % U16_MAX && (front == [] ==> w / 256 == w' / 256)
    ensures var ihl := buf[0] % 16 * 4;
            Parse(front + Be16(w') + back + buf[ihl..]) ==
              Err(if |front| == 2 && !(ihl <= w' <= |buf|) then Malformed else BadChecksum)
  {
    hide Checksum;
    var ihl := buf[0] % 16 * 4;
    var buf' := front + Be16(w') + back + buf[ihl..];
    assert buf'[..ihl] == front + Be16(w') + back;
    ShortIsExact(front + Be16(w) + back);
    ShortIsExact(front + Be16(w') + back);
    OneWordChange(front, w, w', back);
    assert forall i :: 0 <= i < ihl ==> buf[i] == buf[..ihl][i];
    if |front| == 2 {
      assert buf'[2..4] == Be16(w');
      Be16Reads(buf', 2, w');
    }
  }

  /** The words that a header gains or, counted negatively, loses when its length changes. */
  function Shift(buf: seq<Byte>, ihl: nat, ihl': nat): int
    requires ihl <= |buf| && ihl' <= |buf|
  {
    if ihl <= ihl' then WordSum(buf[ihl..ihl']) else 0 - WordSum(buf[ihl'..ihl])
  }

  /** Changing the first word of an accepted packet, which holds version and header length: it
      stays accepted exactly when the version is still 4, the header still fits, and the words
      its new length adds or drops balance the change modulo 65535. */
  lemma FirstWordChange(buf: seq<Byte>, w': nat)
    requires Parse(buf).Ok? && w' <= U16_MAX
    ensures var ihl, ihl', total := buf[0] % 16 * 4, w' / 256 % 16 * 4, WordAt(buf, 2);
            Parse(Be16(w') + buf[2..]).Ok? <==>
              && w' / 4096 == 4 && HEADER_LEN <= ihl' <= total
              && (w' - WordAt(buf, 0) + Shift(buf, ihl, ihl')) % U16_MAX == 0
  {
    hide Checksum, WordSum;
    var ihl, ihl', total := buf[0] % 16 * 4, w' / 256 % 16 * 4, WordAt(buf, 2);
    var buf' := Be16(w') + buf[2..];
    assert forall i :: 2 <= i < |buf| ==> buf'[i] == buf[i];
    assert buf'[0] == w' / 256 && buf'[0] / 16 == w' / 4096;
    if w' / 4096 == 4 && HEADER_LEN <= ihl' <= total {
      ChangedSum(buf, w', ihl, ihl');
      ShortIsExact(buf[..ihl]);
      ShortIsExact(buf'[..ihl']);
      ZeroComplement(WordSum(buf[..ihl]));
      ZeroComplement(WordSum(buf'[..ihl']));
      Balance(WordSum(buf[..ihl]), w' - WordAt(buf, 0) + Shift(buf, ihl, ihl'));
    }
  }

  lemma Balance(s: nat, d: int)
    requires s % U16_MAX == 0 && s + d >= 0
    ensures (s + d) % U16_MAX == 0 <==> d % U16_MAX == 0
  {
  }

  lemma ChangedSum(buf: seq<Byte>, w': nat, ihl: nat, ihl': nat)
    requires 2 <= ihl <= |buf| && 2 <= ihl' <= |buf| && ihl % 2 == 0 && ihl' % 2 == 0 && 0 < w' <= U16_MAX
    ensures var s := WordSum((Be16(w') + buf[2..])[..ihl']);
            s == WordSum(buf[..ihl]) + (w' - WordAt(buf, 0) + Shift(buf, ihl, ihl')) && s >= w'
  {
    hide WordSum;
    assert (Be16(w') + buf[2..])[..ihl'] == Be16(w') + buf[2..ihl'];
    WordSumSplit(Be16(w'), buf[2..ihl']);
    assert buf[..ihl] == buf[..2] + buf[2..ihl];
    WordSumSplit(buf[..2], buf[2..ihl]);
    OneWord(Be16(w'));
    OneWord(buf[..2]);
    if ihl <= ihl' {
      assert buf[2..ihl'] == buf[2..ihl] + buf[ihl..ihl'];
      WordSumSplit(buf[2..ihl], buf[ihl..ihl']);
    } else {
      assert buf[2..ihl] == buf[2..ihl'] + buf[ihl'..ihl];
      WordSumSplit(buf[2..ihl'], buf[ihl'..ihl]);
    }
  }

  lemma OneWord(b: seq<Byte>)
    requires |b| == 2
    ensures WordSum(b) == WordAt(b, 0)
  {
    assert b[2..] == [];
  }

  lemma RaisedSum(p: Packet, id: nat)
    requires Fits(p) && id <= U16_MAX && p.payload == [0xFE, 0xFF, 0, 0]
    ensures Checksum(Encode(p, id)[0 := 0x46]) == 0
  {
    hide Complement;
    var h, b := Header(p, id, Checksum(Header(p, id, 0))), Encode(p, id);
    var b' := b[0 := 0x46];
    assert b'[2..] == b[2..] && b[0] == 0x45;
    WordSumSplit(h, p.payload);
    assert p.payload[2..] == [0, 0] && [0, 0][2..] == [];
    assert WordSum(b') == WordSum(h) + U16_MAX;
    HeaderChecks(p, id);
    ShortIsExact(h);
    ShortIsExact(b');
    ZeroComplement(WordSum(h));
    ZeroComplement(WordSum(b'));
    AddMultiple(WordSum(h), 1);
  }

  /** For example: raising the header length by one word makes the first word
      of the payload an option, and it may balance the change. */
  lemma FirstByteUnprotected(p: Packet, id: nat)
    requires Fits(p) && id <= U16_MAX && p.payload == [0xFE, 0xFF, 0, 0]
    ensures var b := Encode(p, id);
            && b[0] == 0x45 && Parse(b) == Ok(p)
            && Parse(b[0 := 0x46]) == Ok(p.(payload := []))
  {
    hide Checksum;
    var b := Encode(p, id);
    var b' := b[0 := 0x46];
    RoundTrip(p, id, []);
    assert b + [] == b;
    HeaderChecks(p, id);
    RaisedSum(p, id);
    assert b'[..24] == b';
    assert b[2..4] == b'[2..4] == Be16(24);
    Be16Reads(b', 2, 24);
    assert b'[12..16] == b[12..16] && b'[16..20] == b[16..20];
  }

  method Build(out: array<Byte>, p: Packet, id: nat) returns (r: Result<nat>)
    requires id <= U16_MAX
    modifies out
    ensures r == if Fits(p) && HEADER_LEN + |p.payload| <= out.Length then Ok(HEADER_LEN + |p.payload|)
            else Err(BufferTooSmall)
    ensures out[..] == if r.Ok? then Over(old(out[..]), 0, Encode(p, id)) else old(out[..])
  {
    hide Checksum, Front, Be16, Over;
    var total := HEADER_LEN + |p.payload|;
    if out.Length < total || total > U16_MAX {
      return Err(BufferTooSmall);
    }
    ghost var before, front := out[..], Front(p, id);
    OverNothing(before);
    PutNext(out, Front(p, id), 0, before, []);
    assert [] + front == front;
    PutNext(out, Be16(0), 10, before, front);
    PutNext(out, p.src + p.dst, 12, before, front + Be16(0));
    OverFront(before, Header(p, id, 0));
    var csum := Compute(out[..HEADER_LEN]);
    PutField(out, Be16(csum), 10, before, front, Be16(0), p.src + p.dst);
    PutNext(out, p.payload, HEADER_LEN, before, Header(p, id, csum));
    return Ok(total);
  }
}
