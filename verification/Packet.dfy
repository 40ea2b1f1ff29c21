/** BOOTP/DHCP request parsing: a 236-byte header, a 4-byte cookie, then options (section 2 of RFC 2131). */
module Packet {
  import opened Base
  import opened DhcpOptions
  import MacText

  const BOOTREQUEST: byte := 1
  const BOOTREPLY: byte := 2
  const HTYPE_ETHERNET: byte := 1
  const HLEN_ETHERNET: byte := 6
  const MAGIC_COOKIE: seq<byte> := [99, 130, 83, 99]
  const COOKIE_OFFSET: nat := 236
  const MIN_LEN: nat := 240

  datatype DhcpPacket = DhcpPacket(
    xid: u32,
    flags: u16,
    ciaddr: u32,
    giaddr: u32,
    chaddr: Mac,
    options: Options)

  datatype PacketError = TooShort | BadOp | BadHtype | BadHlen | BadCookie | BadChaddr

  function ReadIpv4(buf: seq<byte>, off: nat): u32
    requires off + 4 <= |buf|
  {
    FromOctets(buf[off..off + 4])
  }

  function ParsePacket(buf: seq<byte>): Result<DhcpPacket, PacketError> {
    if |buf| < MIN_LEN then Err(TooShort)
    else if buf[0] != BOOTREQUEST then Err(BadOp)
    else if buf[1] != HTYPE_ETHERNET then Err(BadHtype)
    else if buf[2] != HLEN_ETHERNET then Err(BadHlen)
    else if buf[COOKIE_OFFSET..MIN_LEN] != MAGIC_COOKIE then Err(BadCookie)
    else
      var chaddr := MacText.FromBytes(buf[28..34]);
      if chaddr.None? then Err(BadChaddr)
      else Ok(DhcpPacket(
             FromOctets(buf[4..8]),
             FromOctets16(buf[10..12]),
             ReadIpv4(buf, 12),
             ReadIpv4(buf, 24),
             chaddr.value,
             Options(ParseItems(buf[MIN_LEN..]))))
  }

  /** Length and four fixed fields are the whole acceptance test: option bytes never make a packet malformed. */
  lemma AcceptedExactly(buf: seq<byte>)
    ensures ParsePacket(buf).Ok? <==>
            |buf| >= 240 && buf[0] == 1 && buf[1] == 1 && buf[2] == 6 && buf[236..240] == [99, 130, 83, 99]
    ensures ParsePacket(buf) != Err(BadChaddr)
  {
  }

  // ---- Every packet can arrive ----

  /** A datagram that carries this packet: the fields it does not mention are zero. */
  function PacketBytes(pkt: DhcpPacket): (d: seq<byte>)
    requires AllEncodable(pkt.options.items)
  {
    PacketHeader(pkt) + (Encode(pkt.options.items) + [OPT_END])
  }

  function PacketHeader(pkt: DhcpPacket): (h: seq<byte>)
    ensures |h| == MIN_LEN
  {
    [BOOTREQUEST, HTYPE_ETHERNET, HLEN_ETHERNET, 0] + Octets(pkt.xid) + [0, 0] + Octets16(pkt.flags)
    + Octets(pkt.ciaddr) + [0, 0, 0, 0, 0, 0, 0, 0] + Octets(pkt.giaddr)
    + pkt.chaddr + seq(202, _ => 0) + MAGIC_COOKIE
  }

  lemma HeaderParses(pkt: DhcpPacket, rest: seq<byte>)
    ensures ParsePacket(PacketHeader(pkt) + rest) == Ok(pkt.(options := Options(ParseItems(rest))))
  {
    var d := PacketHeader(pkt) + rest;
    assert d[4..8] == Octets(pkt.xid);
    assert d[10..12] == Octets16(pkt.flags);
    assert d[12..16] == Octets(pkt.ciaddr);
    assert d[24..28] == Octets(pkt.giaddr);
    assert d[28..34] == pkt.chaddr;
    assert d[236..240] == MAGIC_COOKIE;
    assert d[240..] == rest;
  }

  /** The packets that can arrive are exactly those whose options have a TLV form. */
  lemma ArrivesExactly(pkt: DhcpPacket)
    ensures (exists data :: ParsePacket(data) == Ok(pkt)) <==> AllEncodable(pkt.options.items)
    ensures AllEncodable(pkt.options.items) ==> ParsePacket(PacketBytes(pkt)) == Ok(pkt)
  {
    if AllEncodable(pkt.options.items) {
      var rest := Encode(pkt.options.items) + [OPT_END];
      HeaderParses(pkt, rest);
      ParseEncode(pkt.options.items, []);
      assert rest + [] == rest;
      assert ParsePacket(PacketBytes(pkt)) == Ok(pkt);
    } else {
      forall data | ParsePacket(data) == Ok(pkt)
        ensures false
      {
        ParsedIsEncodable(data[MIN_LEN..]);
      }
    }
  }
}
