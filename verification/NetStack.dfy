/** The layers together: a datagram in a packet in a padded frame. */
module NetStack {
  import opened LittleEndian
  import opened InternetChecksum
  import opened NetBytes
  import Ethernet
  import Ipv4
  import Udp

  /** Payload out of a received frame, layer by layer. */
  function Receive(frame: seq<Byte>): Result<Udp.Datagram> {
    match Ethernet.Parse(frame)
    case Err(e) => Err(e)
    case Ok(f) =>
      match Ipv4.Parse(f.payload)
      case Err(e) => Err(e)
      case Ok(p) => Udp.Parse(p.payload, p.src, p.dst)
  }

  /** Whatever the link layer appends to reach its minimum frame size, the datagram that
      arrives is the datagram that was sent. */
  lemma DatagramArrives(d: Udp.Datagram, p: Ipv4.Packet, id: nat, f: Ethernet.Frame, padding: seq<Byte>)
    requires Udp.Fits(d) && p.payload == Udp.Encode(d, p.src, p.dst) && Ipv4.Fits(p) && id <= U16_MAX
    requires f.payload == Ipv4.Encode(p, id) && f.ethertype <= U16_MAX
    ensures Receive(Ethernet.Encode(f) + padding) == Ok(d)
  {
    hide Ethernet.Parse, Ethernet.Encode, Ipv4.Parse, Ipv4.Encode, Udp.Parse, Udp.Encode;
    Ethernet.RoundTrip(f, [], padding);
    Ipv4.RoundTrip(p, id, padding);
    Udp.RoundTrip(d, p.src, p.dst, []);
    assert Udp.Encode(d, p.src, p.dst) + [] == Udp.Encode(d, p.src, p.dst);
  }
}
