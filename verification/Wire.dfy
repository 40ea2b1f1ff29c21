/** Requests and replies as bytes on the wire, by the numbers of sections 2 of RFC 2131 and 3 to 9 of RFC 2132. */
module WireLaws {
  import opened Base
  import opened Config
  import opened Message
  import opened DhcpOptions
  import opened Packet
  import opened Protocol
  import opened ProtocolLaws
  import Builder
  import Ip
  import LeaseStorage

  /** The most significant byte comes first. */
  lemma NetworkOrder(b: seq<byte>)
    requires |b| == 4
    ensures FromOctets(b) == ((b[0] as int * 256 + b[1]) * 256 + b[2]) * 256 + b[3]
    ensures Octets(FromOctets(b)) == b
    ensures FromOctets16(b[..2]) == b[0] as int * 256 + b[1] && Octets16(FromOctets16(b[..2])) == b[..2]
  {
    Ip.OctetsBack(b);
  }

  // ---- Requests ----

  /** The fields of an accepted request are the bytes at their offsets. */
  lemma RequestFields(d: seq<byte>)
    requires ParsePacket(d).Ok?
    ensures var pkt := ParsePacket(d).value;
            && pkt.xid == FromOctets(d[4..8]) && pkt.flags == FromOctets16(d[10..12])
            && pkt.ciaddr == FromOctets(d[12..16]) && pkt.giaddr == FromOctets(d[24..28])
            && pkt.chaddr == d[28..34] && pkt.options.items == ParseItems(d[240..])
  {
  }

  /** Which option number each field is read from, and when its value counts. */
  lemma FieldsByNumber(o: Options)
    ensures var v := Find(o.items, 50);
            o.RequestedIp() == if v.Some? && |v.value| == 4 then Some(FromOctets(v.value)) else None
    ensures var v := Find(o.items, 54);
            o.ServerId() == if v.Some? && |v.value| == 4 then Some(FromOctets(v.value)) else None
    ensures var v := Find(o.items, 55);
            o.ParamRequestList() == if v.Some? && v.value != [] then v else None
  {
  }

  /** The message type is the single byte of option 53. */
  lemma TypeByNumber(o: Options)
    ensures var v, t := Find(o.items, 53), o.MsgType();
            && (t == Some(Discover) <==> v == Some([1])) && (t == Some(MessageType.Offer) <==> v == Some([2]))
            && (t == Some(Request) <==> v == Some([3])) && (t == Some(Decline) <==> v == Some([4]))
            && (t == Some(MessageType.Ack) <==> v == Some([5])) && (t == Some(Nak) <==> v == Some([6]))
            && (t == Some(Release) <==> v == Some([7])) && (t == Some(Inform) <==> v == Some([8]))
  {
    var v := Find(o.items, 53);
    if v.Some? && |v.value| == 1 {
      assert v.value == [v.value[0]];
    }
  }

  /** An ASCII letter or digit, a hyphen, a dot or an underscore. */
  predicate NameByte(b: byte) {
    48 <= b <= 57 || 65 <= b <= 90 || 97 <= b <= 122 || b == 45 || b == 46 || b == 95
  }

  predicate AllNameBytes(raw: seq<byte>) {
    forall i :: 0 <= i < |raw| ==> NameByte(raw[i])
  }

  lemma {:induction false} SanitizeKeepsNames(raw: seq<byte>)
    requires AllNameBytes(raw)
    ensures |Sanitize(raw)| == |raw| && forall i :: 0 <= i < |raw| ==> Sanitize(raw)[i] as int == raw[i]
  {
    if raw != [] {
      SanitizeKeepsNames(raw[1..]);
      assert Sanitize(raw) == [raw[0] as char] + Sanitize(raw[1..]);
    }
  }

  lemma {:induction false} SanitizeEmptyExactly(raw: seq<byte>)
    ensures Sanitize(raw) == "" <==> forall i :: 0 <= i < |raw| ==> !NameByte(raw[i])
  {
    if raw != [] {
      SanitizeEmptyExactly(raw[1..]);
      assert raw == [raw[0]] + raw[1..];
    }
  }

  /** The hostname is option 12: taken as it is if all its bytes may stand in a name, none exactly if no byte may. */
  lemma HostnameByBytes(o: Options)
    ensures var raw, name := Find(o.items, 12), o.Hostname();
            && (name.None? <==> raw.None? || forall i :: 0 <= i < |raw.value| ==> !NameByte(raw.value[i]))
            && (raw.Some? && raw.value != [] && AllNameBytes(raw.value) ==>
                  name.Some? && |name.value| == |raw.value|
                  && forall i :: 0 <= i < |raw.value| ==> name.value[i] as int == raw.value[i])
  {
    var raw := Find(o.items, 12);
    if raw.Some? {
      SanitizeEmptyExactly(raw.value);
      if AllNameBytes(raw.value) {
        SanitizeKeepsNames(raw.value);
      }
    }
  }

  /** In general it is the option's bytes that may stand in a name, in their order. */
  lemma {:induction false} SanitizeKeepsOrder(a: seq<byte>, b: seq<byte>)
    ensures Sanitize(a + b) == Sanitize(a) + Sanitize(b)
  {
    if a == [] {
      assert a + b == b;
    } else {
      assert (a + b)[1..] == a[1..] + b;
      SanitizeKeepsOrder(a[1..], b);
    }
  }

  // ---- Replies ----

  /** The type, address and lease flag every answer is built with. */
  lemma RenderedReply(cfg: DhcpConfig, pkt: DhcpPacket, a: Answer)
    returns (yiaddr: u32, mt: MessageType, includeLease: bool)
    requires |cfg.dns| <= 63 && !a.Silent?
    ensures Rendered(cfg, pkt, a).Some?
    ensures Rendered(cfg, pkt, a).value.0 == Builder.Reply(pkt, cfg, yiaddr, mt, includeLease)
    ensures yiaddr == if a.Offering? || a.Granting? then a.ip else 0
    ensures ToU8(mt) == if a.Offering? then 2 else if a.Refusing? then 6 else 5
    ensures includeLease <==> a.Offering? || a.Granting?
  {
    yiaddr := if a.Offering? || a.Granting? then a.ip else 0;
    mt := if a.Offering? then MessageType.Offer else if a.Refusing? then Nak else MessageType.Ack;
    includeLease := a.Offering? || a.Granting?;
  }

  /** The fixed part of every reply sent: request fields echoed, the address decided, this server, zeros elsewhere. */
  lemma HeaderOnTheWire(cfg: DhcpConfig, pkt: DhcpPacket, a: Answer)
    requires |cfg.dns| <= 63 && !a.Silent?
    ensures Rendered(cfg, pkt, a).Some?
    ensures var d := Rendered(cfg, pkt, a).value.0;
            && |d| > 240 && d[0..4] == [2, 1, 6, 0]
            && FromOctets(d[4..8]) == pkt.xid
            && d[8..10] == [0, 0]
            && FromOctets16(d[10..12]) == pkt.flags
            && d[12..16] == [0, 0, 0, 0]
            && FromOctets(d[16..20]) == (if a.Offering? || a.Granting? then a.ip else 0)
            && FromOctets(d[20..24]) == cfg.serverIp
            && FromOctets(d[24..28]) == pkt.giaddr
            && d[28..34] == pkt.chaddr
            && (forall i :: 34 <= i < 236 ==> d[i] == 0)
            && d[236..240] == [99, 130, 83, 99]
  {
    var yiaddr, mt, includeLease := RenderedReply(cfg, pkt, a);
    ReplyHeader(pkt, cfg, yiaddr, mt, includeLease);
  }

  lemma ReplyHeader(req: DhcpPacket, cfg: DhcpConfig, yiaddr: u32, mt: MessageType, includeLease: bool)
    requires |cfg.dns| <= 63
    ensures var d := Builder.Reply(req, cfg, yiaddr, mt, includeLease);
            && |d| > 240 && d[0..4] == [2, 1, 6, 0]
            && FromOctets(d[4..8]) == req.xid && d[8..10] == [0, 0] && FromOctets16(d[10..12]) == req.flags
            && d[12..16] == [0, 0, 0, 0] && FromOctets(d[16..20]) == yiaddr && FromOctets(d[20..24]) == cfg.serverIp
            && FromOctets(d[24..28]) == req.giaddr && d[28..34] == req.chaddr
            && (forall i :: 34 <= i < 236 ==> d[i] == 0) && d[236..240] == [99, 130, 83, 99]
  {
    var tail := Encode(Builder.ReplyItems(req, cfg, mt, includeLease)) + [OPT_END];
    Builder.HeaderFields(req, cfg, yiaddr, tail);
    var d := Builder.Header(req, cfg, yiaddr) + tail;
    assert d[0..4] == [d[0], d[1], d[2], d[3]];
    assert forall i :: 34 <= i < 236 ==> d[i] == d[34..236][i - 34];
  }

  /**
   The options of every reply sent, as read from its bytes whatever follows them. Router and DNS servers are sent when
   configured, unless the client listed in option 55 what it wants and did not list them; a NAK carries no parameters.
   */
  lemma OptionsOnTheWire(cfg: DhcpConfig, pkt: DhcpPacket, a: Answer, rest: seq<byte>)
    requires |cfg.dns| <= 63 && !a.Silent?
    ensures Rendered(cfg, pkt, a).Some? && |Rendered(cfg, pkt, a).value.0| > 240
    ensures var items := ParseItems((Rendered(cfg, pkt, a).value.0 + rest)[240..]);
            var list := Find(pkt.options.items, 55);
            var unlisted := list.None? || list.value == [];
            && Find(items, 53) == Some([if a.Offering? then 2 else if a.Refusing? then 6 else 5])
            && Find(items, 54) == Some(Octets(cfg.serverIp))
            && Find(items, 51) == (if a.Offering? || a.Granting? then Some(Octets(cfg.leaseTime)) else None)
            && Find(items, 1) == (if a.Refusing? then None else Some(Octets(cfg.subnetMask)))
            && Find(items, 3) == (if !a.Refusing? && cfg.router.Some? && (unlisted || 3 in list.value)
                                  then Some(Octets(cfg.router.value)) else None)
            && Find(items, 6) == (if !a.Refusing? && cfg.dns != [] && (unlisted || 6 in list.value)
                                  then Some(OctetsOfAll(cfg.dns)) else None)
            && (forall i :: 0 <= i < |items| ==> items[i].code in {1, 3, 6, 51, 53, 54})
  {
    var yiaddr, mt, includeLease := RenderedReply(cfg, pkt, a);
    ReplyHeader(pkt, cfg, yiaddr, mt, includeLease);
    TypeMeans(mt, a);
    ReplyOptions(pkt, cfg, yiaddr, mt, includeLease, rest);
  }

  lemma TypeMeans(mt: MessageType, a: Answer)
    requires ToU8(mt) == if a.Offering? then 2 else if a.Refusing? then 6 else 5
    ensures mt == Nak <==> a.Refusing?
  {
  }

  /** The same of any reply the builder can build. */
  lemma ReplyOptions(req: DhcpPacket, cfg: DhcpConfig, yiaddr: u32, mt: MessageType, includeLease: bool,
                     rest: seq<byte>)
    requires |cfg.dns| <= 63
    ensures var items := ParseItems((Builder.Reply(req, cfg, yiaddr, mt, includeLease) + rest)[240..]);
            var list := Find(req.options.items, 55);
            var unlisted := list.None? || list.value == [];
            && Find(items, 53) == Some([ToU8(mt)]) && Find(items, 54) == Some(Octets(cfg.serverIp))
            && Find(items, 51) == (if includeLease && mt != Nak then Some(Octets(cfg.leaseTime)) else None)
            && Find(items, 1) == (if mt == Nak then None else Some(Octets(cfg.subnetMask)))
            && Find(items, 3) == (if mt != Nak && cfg.router.Some? && (unlisted || 3 in list.value)
                                  then Some(Octets(cfg.router.value)) else None)
            && Find(items, 6) == (if mt != Nak && cfg.dns != [] && (unlisted || 6 in list.value)
                                  then Some(OctetsOfAll(cfg.dns)) else None)
            && (forall i :: 0 <= i < |items| ==> items[i].code in {1, 3, 6, 51, 53, 54})
  {
    Builder.ReplyParses(req, cfg, yiaddr, mt, includeLease, rest);
    ReplyItemsRead(req, cfg, mt, includeLease);
    ReplyNamesServer(req, cfg, mt, includeLease);
    NoOtherNumbers(req, cfg, mt, includeLease);
    if mt == Nak {
      NakHasNoParameters(req, cfg, includeLease);
    } else {
      ReplyParameters(req, cfg, mt, includeLease);
      WantsByNumber(req, 3);
      WantsByNumber(req, 6);
    }
  }

  lemma WantsByNumber(req: DhcpPacket, n: byte)
    ensures var list := Find(req.options.items, 55);
            Builder.Wants(req, n) <==> list.None? || list.value == [] || n in list.value
  {
  }

  lemma NoOtherNumbers(req: DhcpPacket, cfg: DhcpConfig, mt: MessageType, includeLease: bool)
    requires |cfg.dns| <= 63
    ensures forall i :: 0 <= i < |Builder.ReplyItems(req, cfg, mt, includeLease)| ==>
              Builder.ReplyItems(req, cfg, mt, includeLease)[i].code in {1, 3, 6, 51, 53, 54}
  {
  }

  /**
   Where every reply decided is sent: to the sender's own address, which is not zero, for an INFORM or for a grant to a
   client that has one and leaves the broadcast bit clear; to everybody in all other cases.
   */
  lemma DestinationOnTheWire(cfg: DhcpConfig, s: LeaseStorage.Store, pkt: DhcpPacket, now: Instant)
    requires |cfg.dns| <= 63 && AnswerTo(cfg, s, pkt, now) != Silent
    ensures var a := AnswerTo(cfg, s, pkt, now);
            && Rendered(cfg, pkt, a).Some?
            && Rendered(cfg, pkt, a).value.1
               == (if a.Informing? || (a.Granting? && pkt.ciaddr != 0 && pkt.flags < 0x8000)
                   then Unicast(pkt.ciaddr) else Broadcast)
            && (a.Informing? ==> pkt.ciaddr != 0)
  {
    var a := AnswerTo(cfg, s, pkt, now);
    BroadcastFlag(pkt);
    InformedHasAddress(cfg, s, pkt, now);
    RenderedDestination(cfg, pkt, a);
  }

  lemma RenderedDestination(cfg: DhcpConfig, pkt: DhcpPacket, a: Answer)
    requires |cfg.dns| <= 63 && !a.Silent?
    ensures Rendered(cfg, pkt, a).Some? && Rendered(cfg, pkt, a).value.1 == ReplyDestination(pkt, a)
  {
  }
}
