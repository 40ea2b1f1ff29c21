/** DHCP replies built from a parsed request. */
module Builder {
  import opened Base
  import opened Config
  import opened Message
  import opened DhcpOptions
  import opened Packet

  // ---- What a reply says ----

  /** The 240 bytes before the options: request fields echoed, the address granted, zeros elsewhere. */
  function Header(req: DhcpPacket, cfg: DhcpConfig, yiaddr: u32): (h: seq<byte>)
    ensures |h| == MIN_LEN
  {
    [BOOTREPLY, HTYPE_ETHERNET, HLEN_ETHERNET, 0] + Octets(req.xid)
    + [0, 0] + Octets16(req.flags) + [0, 0, 0, 0]
    + Octets(yiaddr) + Octets(cfg.serverIp) + Octets(req.giaddr)
    + req.chaddr + Zeros(202) + MAGIC_COOKIE
  }

  function Zeros(n: nat): (z: seq<byte>)
    ensures |z| == n
  {
    seq(n, _ => 0)
  }

  /** Whether an optional parameter may be sent: no request list, or a list naming it. */
  predicate Wants(req: DhcpPacket, code: byte) {
    var prl := req.options.ParamRequestList();
    prl.Some? ==> code in prl.value
  }

  function IdentityItems(cfg: DhcpConfig, mt: MessageType): seq<Item> {
    [Item(OPT_MSG_TYPE, [ToU8(mt)]), Item(OPT_SERVER_ID, Octets(cfg.serverIp))]
  }

  function LeaseItems(cfg: DhcpConfig, includeLease: bool): seq<Item> {
    (if includeLease then [Item(OPT_LEASE_TIME, Octets(cfg.leaseTime))] else [])
    + [Item(OPT_SUBNET_MASK, Octets(cfg.subnetMask))]
  }

  function RouterItems(req: DhcpPacket, cfg: DhcpConfig): seq<Item> {
    if cfg.router.Some? && Wants(req, OPT_ROUTER) then [Item(OPT_ROUTER, Octets(cfg.router.value))] else []
  }

  function DnsItems(req: DhcpPacket, cfg: DhcpConfig): seq<Item> {
    if cfg.dns != [] && Wants(req, OPT_DNS) then [Item(OPT_DNS, OctetsOfAll(cfg.dns))] else []
  }

  /** The options of a reply, in order; a NAK carries no parameters. */
  function ReplyItems(req: DhcpPacket, cfg: DhcpConfig, mt: MessageType, includeLease: bool): (items: seq<Item>)
    requires |cfg.dns| <= 63
    ensures AllEncodable(items)
  {
    IdentityItems(cfg, mt)
    + (if mt == Nak then [] else LeaseItems(cfg, includeLease) + (RouterItems(req, cfg) + DnsItems(req, cfg)))
  }

  function Reply(req: DhcpPacket, cfg: DhcpConfig, yiaddr: u32, mt: MessageType, includeLease: bool): seq<byte>
    requires |cfg.dns| <= 63
  {
    Header(req, cfg, yiaddr) + (Encode(ReplyItems(req, cfg, mt, includeLease)) + [OPT_END])
  }

  function Offer(req: DhcpPacket, cfg: DhcpConfig, yiaddr: u32): seq<byte>
    requires |cfg.dns| <= 63
  {
    Reply(req, cfg, yiaddr, MessageType.Offer, true)
  }

  function Ack(req: DhcpPacket, cfg: DhcpConfig, yiaddr: u32): seq<byte>
    requires |cfg.dns| <= 63
  {
    Reply(req, cfg, yiaddr, MessageType.Ack, true)
  }

  function NakReply(req: DhcpPacket, cfg: DhcpConfig): seq<byte>
    requires |cfg.dns| <= 63
  {
    Reply(req, cfg, 0, Nak, false)
  }

  function InformAck(req: DhcpPacket, cfg: DhcpConfig): seq<byte>
    requires |cfg.dns| <= 63
  {
    Reply(req, cfg, 0, MessageType.Ack, false)
  }

  // ---- Building as the source does it ----

  /** Copy `data` to an offset past the part already written; `done` is that part and all else is still zero. */
  method CopyFromSlice(p: array<byte>, off: nat, data: seq<byte>, ghost done: seq<byte>) returns (ghost now: seq<byte>)
    requires |done| <= off && off + |data| <= p.Length
    requires p[..] == done + Zeros(p.Length - |done|)
    modifies p
    ensures now == done + Zeros(off - |done|) + data
    ensures p[..] == now + Zeros(p.Length - |now|)
  {
    for i := 0 to |data|
      invariant p[..] == done + Zeros(off - |done|) + data[..i] + Zeros(p.Length - off - i)
    {
      p[off + i] := data[i];
    }
    assert data[..|data|] == data;
    now := done + Zeros(off - |done|) + data;
  }

  method BaseReply(req: DhcpPacket, cfg: DhcpConfig, yiaddr: u32) returns (p: array<byte>)
    ensures fresh(p)
    ensures p[..] == Header(req, cfg, yiaddr)
  {
    p := new byte[MIN_LEN](_ => 0);
    p[0] := BOOTREPLY;
    p[1] := HTYPE_ETHERNET;
    p[2] := HLEN_ETHERNET;
    p[3] := 0;
    ghost var h := [BOOTREPLY, HTYPE_ETHERNET, HLEN_ETHERNET, 0];
    h := WriteRequestFields(p, req, h);
    h := WriteAddresses(p, req, cfg, yiaddr, h);
  }

  method WriteRequestFields(p: array<byte>, req: DhcpPacket, ghost start: seq<byte>) returns (ghost h: seq<byte>)
    requires p.Length == MIN_LEN && |start| == 4 && p[..] == start + Zeros(236)
    modifies p
    ensures h == start + Octets(req.xid) + [0, 0] + Octets16(req.flags) && p[..] == h + Zeros(228)
  {
    h := CopyFromSlice(p, 4, Octets(req.xid), start);
    h := CopyFromSlice(p, 10, Octets16(req.flags), h);
  }

  method WriteAddresses(p: array<byte>, req: DhcpPacket, cfg: DhcpConfig, yiaddr: u32, ghost start: seq<byte>)
    returns (ghost h: seq<byte>)
    requires p.Length == MIN_LEN && |start| == 12 && p[..] == start + Zeros(228)
    modifies p
    ensures h == start + [0, 0, 0, 0] + Octets(yiaddr) + Octets(cfg.serverIp) + Octets(req.giaddr)
                 + req.chaddr + Zeros(202) + MAGIC_COOKIE
    ensures p[..] == h
  {
    h := CopyFromSlice(p, 16, Octets(yiaddr), start);
    h := CopyFromSlice(p, 20, Octets(cfg.serverIp), h);
    h := CopyFromSlice(p, 24, Octets(req.giaddr), h);
    h := CopyFromSlice(p, 28, req.chaddr, h);
    assert h == start + [0, 0, 0, 0] + Octets(yiaddr) + Octets(cfg.serverIp) + Octets(req.giaddr) + req.chaddr;
    h := CopyFromSlice(p, COOKIE_OFFSET, MAGIC_COOKIE, h);
  }

  /** The items written so far, after one more. */
  ghost function Wrote(items: seq<Item>, item: Item): (r: seq<Item>)
    requires AllEncodable(items) && Encodable(item)
    ensures r == items + [item] && AllEncodable(r)
    ensures Encode(r) == Encode(items) + EncodeItem(item)
  {
    EncodeAppend(items, item);
    items + [item]
  }

  method WriteParameters(w: OptionsWriter, req: DhcpPacket, cfg: DhcpConfig, includeLease: bool,
                         ghost before: seq<Item>)
    returns (ghost items: seq<Item>)
    requires |cfg.dns| <= 63
    requires AllEncodable(before) && w.buf == Encode(before)
    modifies w
    ensures items == before + (LeaseItems(cfg, includeLease) + (RouterItems(req, cfg) + DnsItems(req, cfg)))
    ensures AllEncodable(items) && w.buf == Encode(items)
  {
    items := before;
    if includeLease {
      w.PushU32(OPT_LEASE_TIME, cfg.leaseTime);
      items := Wrote(items, Item(OPT_LEASE_TIME, Octets(cfg.leaseTime)));
    }
    w.PushIpv4(OPT_SUBNET_MASK, cfg.subnetMask);
    items := Wrote(items, Item(OPT_SUBNET_MASK, Octets(cfg.subnetMask)));
    assert items == before + LeaseItems(cfg, includeLease);
    items := WriteOptional(w, req, cfg, items);
  }

  method WriteOptional(w: OptionsWriter, req: DhcpPacket, cfg: DhcpConfig, ghost before: seq<Item>)
    returns (ghost items: seq<Item>)
    requires |cfg.dns| <= 63
    requires AllEncodable(before) && w.buf == Encode(before)
    modifies w
    ensures items == before + (RouterItems(req, cfg) + DnsItems(req, cfg))
    ensures AllEncodable(items) && w.buf == Encode(items)
  {
    items := before;
    if cfg.router.Some? {
      if Wants(req, OPT_ROUTER) {
        w.PushIpv4(OPT_ROUTER, cfg.router.value);
        items := Wrote(items, Item(OPT_ROUTER, Octets(cfg.router.value)));
      }
    }
    assert items == before + RouterItems(req, cfg);
    if cfg.dns != [] && Wants(req, OPT_DNS) {
      w.PushIpv4List(OPT_DNS, cfg.dns);
      items := Wrote(items, Item(OPT_DNS, OctetsOfAll(cfg.dns)));
    }
  }

  /** The source's reply builder; the writer's length assertion never fires when `dns` has at most 63 entries. */
  method Build(req: DhcpPacket, cfg: DhcpConfig, yiaddr: u32, mt: MessageType, includeLease: bool)
    returns (packet: seq<byte>)
    requires |cfg.dns| <= 63
    ensures packet == Reply(req, cfg, yiaddr, mt, includeLease)
  {
    var base := BaseReply(req, cfg, yiaddr);
    packet := base[..];
    var w := new OptionsWriter();
    w.PushU8(OPT_MSG_TYPE, ToU8(mt));
    ghost var items := Wrote([], Item(OPT_MSG_TYPE, [ToU8(mt)]));
    w.PushIpv4(OPT_SERVER_ID, cfg.serverIp);
    items := Wrote(items, Item(OPT_SERVER_ID, Octets(cfg.serverIp)));
    assert items == IdentityItems(cfg, mt);
    if mt != Nak {
      items := WriteParameters(w, req, cfg, includeLease, items);
    }
    assert items == ReplyItems(req, cfg, mt, includeLease);
    var tail := w.Finish();
    packet := packet + tail;
  }

  // ---- Properties ----

  lemma {:induction false} EncodeConcat(a: seq<Item>, b: seq<Item>)
    requires AllEncodable(a) && AllEncodable(b)
    ensures Encode(a + b) == Encode(a) + Encode(b)
  {
    if a == [] {
      assert a + b == b;
    } else {
      EncodeConcat(a[1..], b);
      assert (a + b)[1..] == a[1..] + b;
    }
  }

  lemma EncodeOne(item: Item)
    requires Encodable(item)
    ensures |Encode([item])| == 2 + |item.data|
  {
    assert Encode([item]) == EncodeItem(item) + Encode([]);
  }

  lemma ParameterLengths(req: DhcpPacket, cfg: DhcpConfig, includeLease: bool)
    requires |cfg.dns| <= 63
    ensures |Encode(LeaseItems(cfg, includeLease))| <= 12
    ensures |Encode(RouterItems(req, cfg))| <= 6
    ensures |Encode(DnsItems(req, cfg))| <= 254
  {
    var lease, mask := Item(OPT_LEASE_TIME, Octets(cfg.leaseTime)), Item(OPT_SUBNET_MASK, Octets(cfg.subnetMask));
    EncodeOne(lease);
    EncodeOne(mask);
    EncodeConcat([lease], [mask]);
    assert LeaseItems(cfg, includeLease) == if includeLease then [lease] + [mask] else [mask];
    if cfg.router.Some? {
      EncodeOne(Item(OPT_ROUTER, Octets(cfg.router.value)));
    }
    EncodeOne(Item(OPT_DNS, OctetsOfAll(cfg.dns)));
  }

  /** No reply exceeds 522 bytes, whatever the request and however long the DNS list a usable configuration allows. */
  lemma ReplyIsSmall(req: DhcpPacket, cfg: DhcpConfig, yiaddr: u32, mt: MessageType, includeLease: bool)
    requires |cfg.dns| <= 63
    ensures 240 < |Reply(req, cfg, yiaddr, mt, includeLease)| <= 522
  {
    var first, second := Item(OPT_MSG_TYPE, [ToU8(mt)]), Item(OPT_SERVER_ID, Octets(cfg.serverIp));
    EncodeOne(first);
    EncodeOne(second);
    EncodeConcat([first], [second]);
    assert IdentityItems(cfg, mt) == [first] + [second];
    ParameterLengths(req, cfg, includeLease);
    var lease, router, dns := LeaseItems(cfg, includeLease), RouterItems(req, cfg), DnsItems(req, cfg);
    EncodeConcat(router, dns);
    EncodeConcat(lease, router + dns);
    EncodeConcat(IdentityItems(cfg, mt), if mt == Nak then [] else lease + (router + dns));
  }

  /** The bytes at the offsets a client reads. */
  lemma HeaderFields(req: DhcpPacket, cfg: DhcpConfig, yiaddr: u32, rest: seq<byte>)
    ensures var d := Header(req, cfg, yiaddr) + rest;
            && d[0] == 2 && d[1] == 1 && d[2] == 6 && d[3] == 0
            && FromOctets(d[4..8]) == req.xid && d[8..10] == [0, 0] && FromOctets16(d[10..12]) == req.flags
            && d[12..16] == [0, 0, 0, 0]
            && FromOctets(d[16..20]) == yiaddr && FromOctets(d[20..24]) == cfg.serverIp
            && FromOctets(d[24..28]) == req.giaddr && d[28..34] == req.chaddr
            && d[34..236] == Zeros(202) && d[236..240] == [99, 130, 83, 99] && d[240..] == rest
  {
    var d := Header(req, cfg, yiaddr) + rest;
    var front := [BOOTREPLY, HTYPE_ETHERNET, HLEN_ETHERNET, 0] + Octets(req.xid) + [0, 0] + Octets16(req.flags);
    var addresses := [0, 0, 0, 0] + Octets(yiaddr) + Octets(cfg.serverIp) + Octets(req.giaddr);
    var back := req.chaddr + Zeros(202) + MAGIC_COOKIE;
    assert d == front + addresses + back + rest;
    assert d[..12] == front && d[12..28] == addresses && d[28..240] == back && d[240..] == rest;
    FrontFields(req, front);
    AddressFields(req, cfg, yiaddr, addresses);
    assert back[..6] == req.chaddr && back[6..208] == Zeros(202) && back[208..] == MAGIC_COOKIE;
    assert d[4..8] == front[4..8] && d[8..10] == front[8..10] && d[10..12] == front[10..12];
    assert d[12..16] == addresses[..4] && d[16..20] == addresses[4..8];
    assert d[20..24] == addresses[8..12] && d[24..28] == addresses[12..];
    assert d[28..34] == back[..6] && d[34..236] == back[6..208] && d[236..240] == back[208..];
    assert d[0] == front[0] && d[1] == front[1] && d[2] == front[2] && d[3] == front[3];
  }

  lemma FrontFields(req: DhcpPacket, front: seq<byte>)
    requires front == [BOOTREPLY, HTYPE_ETHERNET, HLEN_ETHERNET, 0] + Octets(req.xid) + [0, 0] + Octets16(req.flags)
    ensures |front| == 12 && front[4..8] == Octets(req.xid) && front[8..10] == [0, 0]
    ensures front[10..12] == Octets16(req.flags)
    ensures front[0] == BOOTREPLY && front[1] == HTYPE_ETHERNET && front[2] == HLEN_ETHERNET && front[3] == 0
  {
  }

  lemma AddressFields(req: DhcpPacket, cfg: DhcpConfig, yiaddr: u32, addresses: seq<byte>)
    requires addresses == [0, 0, 0, 0] + Octets(yiaddr) + Octets(cfg.serverIp) + Octets(req.giaddr)
    ensures |addresses| == 16 && addresses[..4] == [0, 0, 0, 0] && addresses[4..8] == Octets(yiaddr)
    ensures addresses[8..12] == Octets(cfg.serverIp) && addresses[12..] == Octets(req.giaddr)
  {
  }

  /** Reading a reply's options gives back exactly the option list, even with bytes after it. */
  lemma ReplyParses(req: DhcpPacket, cfg: DhcpConfig, yiaddr: u32, mt: MessageType, includeLease: bool, rest: seq<byte>)
    requires |cfg.dns| <= 63
    ensures ParseItems((Reply(req, cfg, yiaddr, mt, includeLease) + rest)[MIN_LEN..])
            == ReplyItems(req, cfg, mt, includeLease)
  {
    var items := ReplyItems(req, cfg, mt, includeLease);
    assert (Reply(req, cfg, yiaddr, mt, includeLease) + rest)[MIN_LEN..] == Encode(items) + [OPT_END] + rest;
    ParseEncode(items, rest);
  }

  /**
   The request parser and the reply builder agree on the wire format: a reply turned into a request by its first
   byte parses to the echoed fields, a zero ciaddr and the reply's own options. As sent, it is no request.
   */
  lemma ReplyReadsAsPacket(req: DhcpPacket, cfg: DhcpConfig, yiaddr: u32, mt: MessageType, includeLease: bool)
    requires |cfg.dns| <= 63
    ensures var d := Reply(req, cfg, yiaddr, mt, includeLease);
            && ParsePacket(d) == Err(BadOp)
            && ParsePacket(d[0 := 1])
               == Ok(DhcpPacket(req.xid, req.flags, 0, req.giaddr, req.chaddr,
                                Options(ReplyItems(req, cfg, mt, includeLease))))
  {
    var d := Reply(req, cfg, yiaddr, mt, includeLease);
    var tail := Encode(ReplyItems(req, cfg, mt, includeLease)) + [OPT_END];
    ReplyParses(req, cfg, yiaddr, mt, includeLease, []);
    assert d + [] == d;
    HeaderFields(req, cfg, yiaddr, tail);
    var r := d[0 := BOOTREQUEST];
    assert r[4..8] == d[4..8] && r[10..12] == d[10..12] && r[12..16] == d[12..16] && r[24..28] == d[24..28]
           && r[28..34] == d[28..34] && r[236..240] == d[236..240] && r[240..] == d[240..];
  }
}
