/** The protocol decision: how one parsed packet is answered and what it does to the lease store. */
module Protocol {
  import opened Base
  import opened Config
  import opened Message
  import opened Packet
  import opened LeaseFile
  import opened LeaseStorage
  import opened Allocator
  import Builder

  const DECLINE_QUARANTINE_SECS: nat := 3600

  datatype ReplyDst = Broadcast | Unicast(ip: u32)

  datatype Decision = Decision(reply: Option<(seq<byte>, ReplyDst)>, saveLeases: bool)

  // ---- What a packet means to this server ----

  /** A packet is of one of the five types served when it did not come through a relay and names its type. */
  predicate IsType(pkt: DhcpPacket, m: MessageType) {
    pkt.giaddr == 0 && pkt.options.MsgType() == Some(m)
  }

  function Requested(pkt: DhcpPacket): u32 {
    var r := pkt.options.RequestedIp();
    if r.Some? then r.value else pkt.ciaddr
  }

  predicate IsDynamic(cfg: DhcpConfig, mac: Mac) {
    cfg.StaticFor(mac).None?
  }

  predicate Known(cfg: DhcpConfig, s: Store, mac: Mac) {
    cfg.StaticFor(mac).Some? || mac in s.byMac
  }

  /** A REQUEST this server must answer: it names us, or names nobody and the client is known here. */
  predicate Addressed(cfg: DhcpConfig, s: Store, pkt: DhcpPacket) {
    var sid := pkt.options.ServerId();
    IsType(pkt, Request) && if sid.Some? then sid.value == cfg.serverIp else Known(cfg, s, pkt.chaddr)
  }

  /** A REQUEST that is granted: the client wants the address it would get, or has no preference. */
  predicate Grants(cfg: DhcpConfig, s: Store, pkt: DhcpPacket, now: nat) {
    var ip := Assign(cfg, s, pkt.chaddr, now);
    Addressed(cfg, s, pkt) && ip.Some? && (Requested(pkt) == 0 || Requested(pkt) == ip.value)
  }

  /** The address a DECLINE is about: the one named, else the client's lease, else its ciaddr. */
  function Declined(s: Store, pkt: DhcpPacket): u32 {
    var r := pkt.options.RequestedIp();
    if r.Some? then r.value else if pkt.chaddr in s.byMac then s.byMac[pkt.chaddr].ip else pkt.ciaddr
  }

  datatype Answer = Silent | Offering(ip: u32) | Granting(ip: u32) | Refusing | Informing

  function AnswerTo(cfg: DhcpConfig, s: Store, pkt: DhcpPacket, now: nat): Answer {
    var ip := Assign(cfg, s, pkt.chaddr, now);
    if IsType(pkt, Discover) && ip.Some? then Offering(ip.value)
    else if Addressed(cfg, s, pkt) then (if Grants(cfg, s, pkt, now) then Granting(ip.value) else Refusing)
    else if IsType(pkt, Inform) && pkt.ciaddr != 0 then Informing
    else Silent
  }

  function NewLease(cfg: DhcpConfig, pkt: DhcpPacket, ip: u32, now: Instant): Lease {
    Lease(pkt.chaddr, ip, pkt.options.Hostname(), now + cfg.leaseTime)
  }

  /** The store after the packet. */
  function After(cfg: DhcpConfig, s: Store, pkt: DhcpPacket, now: Instant): Store {
    var dropped := if IsDynamic(cfg, pkt.chaddr) then s.Remove(pkt.chaddr) else s;
    if Grants(cfg, s, pkt, now) && IsDynamic(cfg, pkt.chaddr) then
      s.Purge(now).Insert(NewLease(cfg, pkt, Assign(cfg, s, pkt.chaddr, now).value, now))
    else if IsType(pkt, Release) then dropped
    else if IsType(pkt, Decline) then
      (if Declined(s, pkt) != 0 then dropped.Quarantine(Declined(s, pkt), now + DECLINE_QUARANTINE_SECS) else dropped)
    else s
  }

  /** Whether the lease file must be rewritten. */
  predicate Saves(cfg: DhcpConfig, s: Store, pkt: DhcpPacket, now: nat) {
    IsDynamic(cfg, pkt.chaddr)
    && (Grants(cfg, s, pkt, now)
        || ((IsType(pkt, Release) || IsType(pkt, Decline)) && pkt.chaddr in s.byMac))
  }

  predicate WantsBroadcast(pkt: DhcpPacket) {
    pkt.flags / 0x8000 % 2 == 1
  }

  function AckDst(pkt: DhcpPacket): ReplyDst {
    if pkt.ciaddr == 0 || WantsBroadcast(pkt) then Broadcast else Unicast(pkt.ciaddr)
  }

  /** An answer as bytes and destination. */
  function Rendered(cfg: DhcpConfig, pkt: DhcpPacket, a: Answer): Option<(seq<byte>, ReplyDst)>
    requires |cfg.dns| <= 63
  {
    if a.Silent? then None else Some((ReplyBytes(cfg, pkt, a), ReplyDestination(pkt, a)))
  }

  function ReplyBytes(cfg: DhcpConfig, pkt: DhcpPacket, a: Answer): seq<byte>
    requires |cfg.dns| <= 63 && !a.Silent?
  {
    match a
    case Offering(ip) => Builder.Offer(pkt, cfg, ip)
    case Granting(ip) => Builder.Ack(pkt, cfg, ip)
    case Refusing => Builder.NakReply(pkt, cfg)
    case Informing => Builder.InformAck(pkt, cfg)
  }

  function ReplyDestination(pkt: DhcpPacket, a: Answer): ReplyDst
    requires !a.Silent?
  {
    match a
    case Granting(_) => AckDst(pkt)
    case Informing => Unicast(pkt.ciaddr)
    case _ => Broadcast
  }

  // ---- The decision as the source makes it ----

  method Decide(cfg: DhcpConfig, store: LeaseStore, pkt: DhcpPacket, now: Instant) returns (d: Decision)
    requires |cfg.dns| <= 63
    modifies store
    ensures store.View() == After(cfg, old(store.View()), pkt, now)
    ensures d.reply == Rendered(cfg, pkt, AnswerTo(cfg, old(store.View()), pkt, now))
    ensures d.saveLeases == Saves(cfg, old(store.View()), pkt, now)
  {
    if pkt.giaddr != 0 {
      return Decision(None, false);
    }
    var mtype := pkt.options.MsgType();
    if mtype.None? {
      return Decision(None, false);
    }
    match mtype.value
    case Discover =>
      d := DecideDiscover(cfg, store, pkt, now);
    case Request =>
      d := DecideRequest(cfg, store, pkt, now);
    case Release =>
      var save := false;
      if cfg.StaticFor(pkt.chaddr).None? {
        var removed := store.Remove(pkt.chaddr);
        save := removed.Some?;
      }
      return Decision(None, save);
    case Decline =>
      d := DecideDecline(cfg, store, pkt, now);
    case Inform =>
      if pkt.ciaddr == 0 {
        return Decision(None, false);
      }
      var data := Builder.Build(pkt, cfg, 0, MessageType.Ack, false);
      return Decision(Some((data, Unicast(pkt.ciaddr))), false);
    case _ =>
      return Decision(None, false);
  }

  method DecideDiscover(cfg: DhcpConfig, store: LeaseStore, pkt: DhcpPacket, now: Instant) returns (d: Decision)
    requires |cfg.dns| <= 63 && IsType(pkt, Discover)
    ensures store.View() == After(cfg, store.View(), pkt, now)
    ensures d.reply == Rendered(cfg, pkt, AnswerTo(cfg, store.View(), pkt, now))
    ensures d.saveLeases == Saves(cfg, store.View(), pkt, now)
  {
    var ip := AssignIp(cfg, store, pkt.chaddr, now);
    if ip.None? {
      return Decision(None, false);
    }
    var data := Builder.Build(pkt, cfg, ip.value, MessageType.Offer, true);
    d := Decision(Some((data, Broadcast)), false);
  }

  method DecideRequest(cfg: DhcpConfig, store: LeaseStore, pkt: DhcpPacket, now: Instant) returns (d: Decision)
    requires |cfg.dns| <= 63 && IsType(pkt, Request)
    modifies store
    ensures store.View() == After(cfg, old(store.View()), pkt, now)
    ensures d.reply == Rendered(cfg, pkt, AnswerTo(cfg, old(store.View()), pkt, now))
    ensures d.saveLeases == Saves(cfg, old(store.View()), pkt, now)
  {
    var sid := pkt.options.ServerId();
    var selecting := sid.Some?;
    if sid.Some? && sid.value != cfg.serverIp {
      return Decision(None, false);
    }
    var requested := Requested(pkt);
    var known := cfg.StaticFor(pkt.chaddr).Some? || store.Get(pkt.chaddr).Some?;
    if !selecting && !known {
      return Decision(None, false);
    }
    d := DecideAddressed(cfg, store, pkt, requested, now);
  }

  lemma AddressedOutcome(cfg: DhcpConfig, s: Store, pkt: DhcpPacket, now: Instant)
    requires Addressed(cfg, s, pkt)
    ensures var ip := Assign(cfg, s, pkt.chaddr, now);
            if ip.Some? && (Requested(pkt) == 0 || Requested(pkt) == ip.value) then
              && AnswerTo(cfg, s, pkt, now) == Granting(ip.value)
              && Saves(cfg, s, pkt, now) == IsDynamic(cfg, pkt.chaddr)
              && After(cfg, s, pkt, now)
                 == if IsDynamic(cfg, pkt.chaddr) then s.Purge(now).Insert(NewLease(cfg, pkt, ip.value, now)) else s
            else
              AnswerTo(cfg, s, pkt, now) == Refusing && !Saves(cfg, s, pkt, now) && After(cfg, s, pkt, now) == s
  {
  }

  /** A REQUEST that must be answered: granted if the client wants what it would get, refused otherwise. */
  method DecideAddressed(cfg: DhcpConfig, store: LeaseStore, pkt: DhcpPacket, requested: u32, now: Instant)
    returns (d: Decision)
    requires |cfg.dns| <= 63 && Addressed(cfg, store.View(), pkt) && requested == Requested(pkt)
    modifies store
    ensures store.View() == After(cfg, old(store.View()), pkt, now)
    ensures d.reply == Rendered(cfg, pkt, AnswerTo(cfg, old(store.View()), pkt, now))
    ensures d.saveLeases == Saves(cfg, old(store.View()), pkt, now)
  {
    AddressedOutcome(cfg, store.View(), pkt, now);
    var ip := AssignIp(cfg, store, pkt.chaddr, now);
    if ip.Some? && (requested == 0 || requested == ip.value) {
      var save := Commit(cfg, store, pkt, ip.value, now);
      var data := Builder.Build(pkt, cfg, ip.value, MessageType.Ack, true);
      d := Decision(Some((data, AckDst(pkt))), save);
    } else {
      var data := Builder.Build(pkt, cfg, 0, Nak, false);
      d := Decision(Some((data, Broadcast)), false);
    }
  }

  /** Record a grant: only clients without a static binding get a lease, after a sweep. */
  method Commit(cfg: DhcpConfig, store: LeaseStore, pkt: DhcpPacket, ip: u32, now: Instant) returns (save: bool)
    modifies store
    ensures save == IsDynamic(cfg, pkt.chaddr)
    ensures store.View() == if save then old(store.View()).Purge(now).Insert(NewLease(cfg, pkt, ip, now))
                            else old(store.View())
  {
    save := false;
    if cfg.StaticFor(pkt.chaddr).None? {
      var _ := store.PurgeExpired(now);
      store.Insert(Lease(pkt.chaddr, ip, pkt.options.Hostname(), now + cfg.leaseTime));
      save := true;
    }
  }

  method DecideDecline(cfg: DhcpConfig, store: LeaseStore, pkt: DhcpPacket, now: Instant) returns (d: Decision)
    requires |cfg.dns| <= 63 && IsType(pkt, Decline)
    modifies store
    ensures store.View() == After(cfg, old(store.View()), pkt, now)
    ensures d.reply == Rendered(cfg, pkt, AnswerTo(cfg, old(store.View()), pkt, now))
    ensures d.saveLeases == Saves(cfg, old(store.View()), pkt, now)
  {
    var declined := pkt.ciaddr;
    var lease := store.Get(pkt.chaddr);
    if pkt.options.RequestedIp().Some? {
      declined := pkt.options.RequestedIp().value;
    } else if lease.Some? {
      declined := lease.value.ip;
    }
    var save := false;
    if cfg.StaticFor(pkt.chaddr).None? {
      var removed := store.Remove(pkt.chaddr);
      save := removed.Some?;
    }
    if declined != 0 {
      store.Quarantine(declined, now + DECLINE_QUARANTINE_SECS);
    }
    d := Decision(None, save);
  }
}
