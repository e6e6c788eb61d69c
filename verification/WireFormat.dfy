/** The packet formats byte by byte, as RFC 791, RFC 768 and RFC 792 draw them: which bytes
    are the encoding of a packet, said without the encoders (cibos-net/src). */
module WireFormat {
  import opened LittleEndian
  import opened Division
  import opened InternetChecksum
  import opened NetBytes
  import Ethernet
  import Ipv4
  import Udp
  import Icmp

  // ---- sums of words -------------------------------------------------------

  /** The 16 bits at bytes `2 * k` and `2 * k + 1`; what is past the end is zero. */
  function PaddedWord(b: seq<Byte>, k: nat): nat {
    if 2 * k + 1 < |b| then b[2 * k] as nat * 256 + b[2 * k + 1]
    else if 2 * k < |b| then b[2 * k] as nat * 256 else 0
  }

  function SumOfWords(b: seq<Byte>, n: nat): nat {
    if n == 0 then 0 else SumOfWords(b, n - 1) + PaddedWord(b, n - 1)
  }

  lemma {:induction false} FirstWordOff(b: seq<Byte>, n: nat)
    requires |b| >= 2
    ensures SumOfWords(b, n + 1) == PaddedWord(b, 0) + SumOfWords(b[2..], n)
  {
    if n > 0 {
      FirstWordOff(b, n - 1);
      assert PaddedWord(b, n) == PaddedWord(b[2..], n - 1);
    }
  }

  lemma {:induction false} SumsAgree(b: seq<Byte>)
    ensures SumOfWords(b, (|b| + 1) / 2) == WordSum(b)
  {
    if |b| >= 2 {
      SumsAgree(b[2..]);
      FirstWordOff(b, (|b| - 1) / 2);
    }
  }

  /** Sums that are multiples of 65535: the one's complement sum is all ones. */
  ghost predicate ChecksOut(sum: nat) {
    sum % 65535 == 0
  }

  /** At most one field value below 65535 makes a sum check out, and one above 0. */
  lemma OneField(sum: nat, c: nat, c': nat)
    requires ChecksOut(sum + c) && ChecksOut(sum + c')
    requires (c < 65535 && c' < 65535) || (0 < c <= 65535 && 0 < c' <= 65535)
    ensures c == c'
  {
    SameResidue(sum, c, c');
  }

  /** Two bytes, the higher first. */
  predicate Holds16(b: seq<Byte>, off: nat, v: nat) {
    off + 2 <= |b| && b[off] as nat * 256 + b[off + 1] == v
  }

  lemma Holds16Is(b: seq<Byte>, off: nat, v: nat)
    requires Holds16(b, off, v)
    ensures v <= U16_MAX && b[off..off + 2] == Be16(v)
  {
  }

  // ---- IPv4 ----------------------------------------------------------------

  /** Version 4, five header words, no service bits, "don't fragment", fragment 0. */
  predicate Ipv4Fields(b: seq<Byte>, p: Ipv4.Packet, id: nat) {
    && |b| == 20 + |p.payload|
    && b[0] == 0x45 && b[1] == 0 && Holds16(b, 2, |b|) && Holds16(b, 4, id) && Holds16(b, 6, 0x4000)
    && b[8] == p.ttl && b[9] == p.protocol && b[12..16] == p.src && b[16..20] == p.dst && b[20..] == p.payload
  }

  ghost predicate Ipv4OnWire(b: seq<Byte>, p: Ipv4.Packet, id: nat) {
    && Ipv4Fields(b, p, id)
    && ChecksOut(SumOfWords(b[..20], 10)) && !Holds16(b, 10, 65535)
  }

  lemma Ipv4Header(b: seq<Byte>, p: Ipv4.Packet, id: nat, csum: nat)
    requires Ipv4.Fits(p) && id <= U16_MAX && csum <= U16_MAX
    ensures b == Ipv4.Header(p, id, csum) + p.payload <==> Ipv4Fields(b, p, id) && Holds16(b, 10, csum)
  {
    hide Ipv4.Header;
    var h := Ipv4.Header(p, id, csum) + p.payload;
    Ipv4HeaderFields(p, id, csum);
    if Ipv4Fields(b, p, id) && Holds16(b, 10, csum) {
      SameFront(b, h, p, id);
      assert b[10..12] == h[10..12] && b[12..16] == h[12..16] && b[16..20] == h[16..20] && b[20..] == h[20..];
      assert b == b[..10] + b[10..12] + b[12..16] + b[16..20] + b[20..];
      assert h == h[..10] + h[10..12] + h[12..16] + h[16..20] + h[20..];
    }
  }

  lemma Ipv4HeaderFields(p: Ipv4.Packet, id: nat, csum: nat)
    requires Ipv4.Fits(p) && id <= U16_MAX && csum <= U16_MAX
    ensures var h := Ipv4.Header(p, id, csum) + p.payload; Ipv4Fields(h, p, id) && Holds16(h, 10, csum)
  {
    var h := Ipv4.Header(p, id, csum) + p.payload;
    var front := Ipv4.Front(p, id);
    assert h[..10] == front;
    assert forall i :: 0 <= i < 10 ==> h[i] == front[i];
    assert h[12..16] == p.src && h[16..20] == p.dst && h[20..] == p.payload;
  }

  lemma SameFront(b: seq<Byte>, h: seq<Byte>, p: Ipv4.Packet, id: nat)
    requires Ipv4Fields(b, p, id) && Ipv4Fields(h, p, id)
    ensures b[..10] == h[..10]
  {
    assert forall i :: 0 <= i < 10 ==> b[i] == h[i];
  }

  lemma Ipv4Sum(p: Ipv4.Packet, id: nat, csum: nat)
    requires Ipv4.Fits(p) && id <= U16_MAX && csum <= U16_MAX
    ensures SumOfWords(Ipv4.Header(p, id, csum), 10) == WordSum(Ipv4.Header(p, id, 0)) + csum
    ensures WordSum(Ipv4.Header(p, id, 0)) > 0
  {
    hide Ipv4.Front, WordSum, SumOfWords;
    SumsAgree(Ipv4.Header(p, id, csum));
    Ipv4.ZeroField();
    FieldSum(Ipv4.Front(p, id), csum, p.src + p.dst);
    FirstWordCounts(p, id);
  }

  lemma FirstWordCounts(p: Ipv4.Packet, id: nat)
    requires Ipv4.Fits(p) && id <= U16_MAX
    ensures WordSum(Ipv4.Header(p, id, 0)) > 0
  {
    assert Ipv4.Header(p, id, 0)[0] == 0x45;
  }

  /** Bytes are the encoding of a packet exactly when each field stands where RFC 791 puts it and
      the header's words add up; of the two zeros of one's complement the field has the positive. */
  lemma Ipv4Layout(b: seq<Byte>, p: Ipv4.Packet, id: nat)
    requires Ipv4.Fits(p) && id <= U16_MAX
    ensures b == Ipv4.Encode(p, id) <==> Ipv4OnWire(b, p, id)
  {
    hide Ipv4.Header, WordSum, SumOfWords, Fold, Ipv4Fields;
    var sum := WordSum(Ipv4.Header(p, id, 0));
    var csum := Checksum(Ipv4.Header(p, id, 0));
    var h := Ipv4.Header(p, id, csum);
    assert (h + p.payload)[..20] == h;
    Ipv4Sum(p, id, csum);
    Ipv4Header(h + p.payload, p, id, csum);
    Ipv4Header(b, p, id, csum);
    Ipv4.HeaderChecks(p, id);
    ShortIsExact(h);
    ShortIsExact(Ipv4.Header(p, id, 0));
    SumsAgree(h);
    ZeroComplement(sum + csum);
    FoldSpec(sum);
    if Ipv4OnWire(b, p, id) {
      assert |b| >= 20 by {
        Ipv4Length(b, p, id);
      }
      var c: nat := WordAt(b, 10);
      Ipv4Header(b, p, id, c);
      assert b[..20] == Ipv4.Header(p, id, c);
      Ipv4Sum(p, id, c);
      OneField(sum, c, csum);
    }
  }

  lemma Ipv4Length(b: seq<Byte>, p: Ipv4.Packet, id: nat)
    requires Ipv4Fields(b, p, id)
    ensures |b| >= 20
  {
  }

  /** Which buffers hold a packet, which packet, and what is wrong with the others. */
  lemma Ipv4Reads(buf: seq<Byte>)
    ensures Ipv4.Parse(buf) == Err(Truncated) <==> |buf| < 20
    ensures |buf| >= 20 ==>
              var ihl, total := buf[0] % 16 * 4, PaddedWord(buf, 1);
              if buf[0] / 16 != 4 || ihl < 20 || total < ihl || |buf| < total then Ipv4.Parse(buf) == Err(Malformed)
              else if !ChecksOut(SumOfWords(buf[..ihl], ihl / 2)) then Ipv4.Parse(buf) == Err(BadChecksum)
              else
                && Ipv4.Parse(buf).Ok?
                && var p := Ipv4.Parse(buf).value;
                   && p.ttl == buf[8] && p.protocol == buf[9] && p.src == buf[12..16] && p.dst == buf[16..20]
                   && p.payload == buf[ihl..total]
  {
    hide WordSum, SumOfWords, Fold;
    if |buf| >= 20 {
      var ihl := buf[0] % 16 * 4;
      if buf[0] / 16 == 4 && 20 <= ihl <= |buf| {
        SumsAgree(buf[..ihl]);
        ShortIsExact(buf[..ihl]);
        ZeroComplement(WordSum(buf[..ihl]));
        PositiveSum(buf[..ihl]);
      }
    }
  }

  lemma PositiveSum(b: seq<Byte>)
    requires |b| >= 2 && b[0] > 0
    ensures WordSum(b) > 0
  {
  }

  // ---- UDP -----------------------------------------------------------------

  predicate UdpFields(b: seq<Byte>, d: Udp.Datagram) {
    && |b| == 8 + |d.payload|
    && Holds16(b, 0, d.srcPort) && Holds16(b, 2, d.dstPort) && Holds16(b, 4, |b|) && b[8..] == d.payload
  }

  /** Addresses, protocol 17 and length, as words. */
  function PseudoSum(src: Ipv4Addr, dst: Ipv4Addr, length: nat): nat {
    PaddedWord(src, 0) + PaddedWord(src, 1) + PaddedWord(dst, 0) + PaddedWord(dst, 1) + 17 + length
  }

  ghost predicate UdpOnWire(b: seq<Byte>, d: Udp.Datagram, src: Ipv4Addr, dst: Ipv4Addr) {
    && UdpFields(b, d)
    && ChecksOut(PseudoSum(src, dst, |b|) + SumOfWords(b, (|b| + 1) / 2)) && !Holds16(b, 6, 0)
  }

  lemma UdpHeader(b: seq<Byte>, d: Udp.Datagram, csum: nat)
    requires Udp.Fits(d) && csum <= U16_MAX
    ensures b == Udp.WithChecksum(d, csum) <==> UdpFields(b, d) && Holds16(b, 6, csum)
  {
    var h := Udp.WithChecksum(d, csum);
    assert h[..2] == Be16(d.srcPort) && h[2..4] == Be16(d.dstPort) && h[4..6] == Be16(8 + |d.payload|);
    assert h[6..8] == Be16(csum) && h[8..] == d.payload;
    if UdpFields(b, d) && Holds16(b, 6, csum) {
      Holds16Is(b, 0, d.srcPort);
      Holds16Is(b, 2, d.dstPort);
      Holds16Is(b, 4, |b|);
      Holds16Is(b, 6, csum);
      assert b == b[..2] + b[2..4] + b[4..6] + b[6..8] + b[8..];
      assert h == h[..2] + h[2..4] + h[4..6] + h[6..8] + h[8..];
    }
    if b == h {
      assert b[2..4] == h[2..4];
    }
  }

  lemma FourWords(b: seq<Byte>)
    ensures SumOfWords(b, 4) == PaddedWord(b, 0) + PaddedWord(b, 1) + PaddedWord(b, 2) + PaddedWord(b, 3)
  {
    assert SumOfWords(b, 1) == SumOfWords(b, 0) + PaddedWord(b, 0);
    assert SumOfWords(b, 2) == PaddedWord(b, 0) + PaddedWord(b, 1);
  }

  lemma PseudoWords(src: Ipv4Addr, dst: Ipv4Addr, length: nat)
    requires length <= U16_MAX
    ensures WordSum(Udp.PseudoHeader(src, dst, length)) == PseudoSum(src, dst, length)
  {
    var h := Udp.PseudoHeader(src, dst, length);
    SumsAgree(h);
    assert h[..4] == src && h[4..8] == dst && h[8] == 0 && h[9] == 17 && h[10..12] == Be16(length);
    FourWords(h);
    assert SumOfWords(h, 6) == SumOfWords(h, 4) + PaddedWord(h, 4) + PaddedWord(h, 5);
    assert PaddedWord(h, 5) == length;
    assert forall i :: 0 <= i < 4 ==> h[i] == h[..4][i] && h[i + 4] == h[4..8][i];
  }

  /** The whole sum, the datagram's checksum field counted apart. */
  lemma UdpSum(d: Udp.Datagram, src: Ipv4Addr, dst: Ipv4Addr, csum: nat)
    requires Udp.Fits(d) && csum <= U16_MAX
    ensures var n := 8 + |d.payload|; var h := Udp.WithChecksum(d, csum);
            PseudoSum(src, dst, n) + SumOfWords(h, (n + 1) / 2)
            == Udp.FullSum(src, dst, n, Udp.WithChecksum(d, 0)) + csum
  {
    hide WordSum, SumOfWords, Udp.PseudoHeader, PseudoSum;
    var n := 8 + |d.payload|;
    SumsAgree(Udp.WithChecksum(d, csum));
    PseudoWords(src, dst, n);
    assert Be16(0) == [0, 0];
    FieldSum(Be16(d.srcPort) + Be16(d.dstPort) + Be16(n), csum, d.payload);
  }

  /** Bytes are the encoding of a datagram exactly when its fields stand where RFC 768 puts them, the
      words of pseudo-header and datagram add up, and the checksum field is not zero. */
  lemma UdpLayout(b: seq<Byte>, d: Udp.Datagram, src: Ipv4Addr, dst: Ipv4Addr)
    requires Udp.Fits(d)
    ensures b == Udp.Encode(d, src, dst) <==> UdpOnWire(b, d, src, dst)
  {
    hide Udp.WithChecksum, Udp.FullSum, PseudoSum, SumOfWords, Fold, UdpFields;
    var n := 8 + |d.payload|;
    var sum := Udp.FullSum(src, dst, n, Udp.WithChecksum(d, 0));
    var csum := Udp.ChecksumField(d, src, dst);
    UdpSum(d, src, dst, csum);
    UdpHeader(Udp.WithChecksum(d, csum), d, csum);
    FoldSpec(sum);
    ComplementChecks(sum);
    ZeroComplement(sum + csum);
    if UdpOnWire(b, d, src, dst) {
      assert |b| == n by {
        UdpLength(b, d);
      }
      var c: nat := WordAt(b, 6);
      UdpHeader(b, d, c);
      UdpSum(d, src, dst, c);
      OneField(sum, c, csum);
    }
  }

  lemma UdpLength(b: seq<Byte>, d: Udp.Datagram)
    requires UdpFields(b, d)
    ensures |b| == 8 + |d.payload|
  {
  }

  /** Which buffers hold a datagram, which datagram, and what is wrong with the others. A zero
      checksum field is not checked. */
  lemma UdpReads(buf: seq<Byte>, src: Ipv4Addr, dst: Ipv4Addr)
    ensures Udp.Parse(buf, src, dst) == Err(Truncated) <==> |buf| < 8
    ensures |buf| >= 8 ==>
              var n, r := PaddedWord(buf, 2), Udp.Parse(buf, src, dst);
              if n < 8 || |buf| < n then r == Err(Malformed)
              else if !Holds16(buf, 6, 0)
                      && !ChecksOut(PseudoSum(src, dst, n) + SumOfWords(buf[..n], (n + 1) / 2))
              then r == Err(BadChecksum)
              else r == Ok(Udp.Datagram(PaddedWord(buf, 0), PaddedWord(buf, 1), buf[8..n]))
  {
    hide WordSum, SumOfWords, Fold, Udp.PseudoHeader;
    if |buf| >= 8 {
      var n: nat := PaddedWord(buf, 2);
      if 8 <= n <= |buf| {
        PseudoWords(src, dst, n);
        SumsAgree(buf[..n]);
        ZeroComplement(PseudoSum(src, dst, n) + WordSum(buf[..n]));
      }
    }
  }

  // ---- ICMP ----------------------------------------------------------------

  /** Type 8 asks, type 0 answers; code 0. */
  predicate EchoFields(b: seq<Byte>, e: Icmp.Echo) {
    && |b| == 8 + |e.payload|
    && b[0] == (if e.isReply then 0 else 8) && b[1] == 0
    && Holds16(b, 4, e.id) && Holds16(b, 6, e.sequence) && b[8..] == e.payload
  }

  /** The words add up, in 32 bits, to a positive sum; the checksum field is 0xFFFF only where the
      others add up to zero. */
  ghost predicate EchoOnWire(b: seq<Byte>, e: Icmp.Echo) {
    && EchoFields(b, e)
    && var sum := SumOfWords(b, (|b| + 1) / 2) % 0x1_0000_0000;
       ChecksOut(sum) && sum > 0 && (Holds16(b, 2, 65535) ==> sum == 65535)
  }

  lemma EchoHeader(b: seq<Byte>, e: Icmp.Echo, csum: nat)
    requires Icmp.Fits(e) && csum <= U16_MAX
    ensures b == Icmp.WithChecksum(e, csum) <==> EchoFields(b, e) && Holds16(b, 2, csum)
  {
    var h := Icmp.WithChecksum(e, csum);
    assert h[2..4] == Be16(csum) && h[4..6] == Be16(e.id) && h[6..8] == Be16(e.sequence) && h[8..] == e.payload;
    if EchoFields(b, e) && Holds16(b, 2, csum) {
      Holds16Is(b, 2, csum);
      Holds16Is(b, 4, e.id);
      Holds16Is(b, 6, e.sequence);
      assert b == b[..2] + b[2..4] + b[4..6] + b[6..8] + b[8..];
      assert h == h[..2] + h[2..4] + h[4..6] + h[6..8] + h[8..];
    }
    if b == h {
      assert b[2..4] == h[2..4];
    }
  }

  lemma EchoSum(e: Icmp.Echo, csum: nat)
    requires Icmp.Fits(e) && csum <= U16_MAX
    ensures var h := Icmp.WithChecksum(e, csum);
            SumOfWords(h, (|h| + 1) / 2) == WordSum(h) == WordSum(Icmp.WithChecksum(e, 0)) + csum
  {
    hide WordSum, SumOfWords;
    SumsAgree(Icmp.WithChecksum(e, csum));
    assert Be16(0) == [0, 0];
    FieldSum([if e.isReply then 0 else 8, 0], csum, Be16(e.id) + Be16(e.sequence) + e.payload);
  }

  /** Bytes, however many, are the encoding of a message exactly when the fields stand where RFC 792
      puts them and the words add up in 32 bits. */
  lemma EchoLayout(b: seq<Byte>, e: Icmp.Echo)
    requires Icmp.Fits(e)
    ensures b == Icmp.Encode(e) <==> EchoOnWire(b, e)
  {
    hide Icmp.WithChecksum, WordSum, SumOfWords, Fold, EchoFields, Complement;
    var zero := Icmp.WithChecksum(e, 0);
    var sum, csum := WordSum(zero), Checksum(zero);
    EchoSum(e, csum);
    EchoHeader(Icmp.WithChecksum(e, csum), e, csum);
    FilledIn(sum, csum);
    if EchoOnWire(b, e) {
      assert |b| == 8 + |e.payload| by {
        EchoLength(b, e);
      }
      var c: nat := WordAt(b, 2);
      EchoHeader(b, e, c);
      EchoSum(e, c);
      WrappedFieldOf(sum, c, csum);
    }
  }

  /** The complement filled in, in 32 bits. */
  lemma FilledIn(sum: nat, csum: nat)
    requires csum == Complement(sum % U32_LIMIT)
    ensures var total := (sum + csum) % U32_LIMIT;
            ChecksOut(total) && total > 0 && (csum == 65535 ==> total == 65535)
  {
    hide Fold;
    WrappedComplementChecks(sum);
    ZeroComplement((sum + csum) % U32_LIMIT);
    FoldSpec(sum % U32_LIMIT);
    if csum == 65535 {
      DivMod(sum + csum, U32_LIMIT, sum / U32_LIMIT, 65535);
    }
  }

  /** Filling in any other value does not make the sum check out, wrapped around or not. */
  lemma WrappedFieldOf(sum: nat, c: nat, csum: nat)
    requires csum == Complement(sum % U32_LIMIT) && c <= 65535
    requires var total := (sum + c) % U32_LIMIT; ChecksOut(total) && total > 0 && (c == 65535 ==> total == 65535)
    ensures c == csum
  {
    hide Complement;
    var s := sum % U32_LIMIT;
    WrapsSmall(sum, c);
    LeastMultiple((sum + c) % U32_LIMIT);
    DivMod(sum + c, U32_LIMIT, sum / U32_LIMIT, s + c);
    FieldOf(s, c, csum);
  }

  lemma LeastMultiple(v: nat)
    requires v > 0 && ChecksOut(v)
    ensures v >= 65535
  {
  }

  /** Too little is left of a sum that a 16-bit value makes wrap around. */
  lemma WrapsSmall(sum: nat, c: nat)
    requires c <= 65535
    ensures sum % U32_LIMIT + c >= U32_LIMIT ==> (sum + c) % U32_LIMIT < 65535
  {
    var s := sum % U32_LIMIT;
    if s + c >= U32_LIMIT {
      DivMod(sum + c, U32_LIMIT, sum / U32_LIMIT + 1, s + c - U32_LIMIT);
    }
  }

  lemma FieldOf(sum: nat, c: nat, csum: nat)
    requires csum == Complement(sum) && ChecksOut(sum + c) && sum + c > 0 && c <= 65535
    requires c == 65535 ==> sum == 0
    ensures c == csum
  {
    hide Fold;
    FoldSpec(sum);
    ComplementChecks(sum);
    ZeroComplement(sum + csum);
    if sum > 0 {
      OneField(sum, c, csum);
    }
  }

  lemma EchoLength(b: seq<Byte>, e: Icmp.Echo)
    requires EchoFields(b, e)
    ensures |b| == 8 + |e.payload|
  {
  }

  /** Which buffers hold a message, which message, and what is wrong with the others; the sum is
      taken in 32 bits. */
  lemma EchoReads(buf: seq<Byte>)
    ensures Icmp.Parse(buf) == Err(Truncated) <==> |buf| < 8
    ensures |buf| >= 8 ==>
              var sum, r := SumOfWords(buf, (|buf| + 1) / 2) % 0x1_0000_0000, Icmp.Parse(buf);
              if buf[0] != 0 && buf[0] != 8 then r == Err(Malformed)
              else if sum == 0 || !ChecksOut(sum) then r == Err(BadChecksum)
              else r == Ok(Icmp.Echo(buf[0] == 0, PaddedWord(buf, 2), PaddedWord(buf, 3), buf[8..]))
  {
    hide WordSum, SumOfWords, Fold;
    SumsAgree(buf);
    ZeroComplement(WordSum(buf) % U32_LIMIT);
  }

  // ---- Ethernet ------------------------------------------------------------

  /** Bytes are the encoding of a frame exactly when they are destination, source, type and payload. */
  lemma FrameLayout(b: seq<Byte>, f: Ethernet.Frame)
    requires f.ethertype <= U16_MAX
    ensures b == Ethernet.Encode(f) <==>
              && |b| == 14 + |f.payload| && b[..6] == f.dst && b[6..12] == f.src && Holds16(b, 12, f.ethertype)
              && b[14..] == f.payload
  {
    var h := Ethernet.Encode(f);
    assert h[..6] == f.dst && h[6..12] == f.src && h[12..14] == Be16(f.ethertype) && h[14..] == f.payload;
    if |b| == 14 + |f.payload| && Holds16(b, 12, f.ethertype) {
      Holds16Is(b, 12, f.ethertype);
      assert b == b[..6] + b[6..12] + b[12..14] + b[14..];
      assert h == h[..6] + h[6..12] + h[12..14] + h[14..];
    }
    if b == h {
      assert b[12..14] == h[12..14];
    }
  }
}
