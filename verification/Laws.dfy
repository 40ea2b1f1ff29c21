/** What one protocol decision keeps, changes and repeats. */
module ProtocolLaws {
  import opened Base
  import opened Config
  import opened Message
  import opened DhcpOptions
  import opened Packet
  import opened Text
  import opened LeaseFile
  import opened LeaseStorage
  import opened Allocator
  import opened Protocol
  import Builder

  // ---- The store stays well formed ----

  lemma {:induction false} SanitizedIsToken(raw: seq<byte>)
    ensures forall i :: 0 <= i < |Sanitize(raw)| ==> !Whitespace(Sanitize(raw)[i])
  {
    if raw != [] {
      SanitizedIsToken(raw[1..]);
    }
  }

  /** A hostname taken from a packet is one word, so it survives the lease file. */
  lemma HostnameIsToken(o: Options)
    ensures o.Hostname().Some? ==> Token(o.Hostname().value)
  {
    var d := o.Get(OPT_HOSTNAME);
    if d.Some? {
      SanitizedIsToken(d.value);
    }
  }

  lemma DecideKeepsStorable(cfg: DhcpConfig, s: Store, pkt: DhcpPacket, now: Instant)
    requires Storable(s.byMac)
    ensures Storable(After(cfg, s, pkt, now).byMac)
  {
    HostnameIsToken(pkt.options);
  }

  /** A granted address belongs to no other client once the expired leases are gone, whatever `now` is. */
  lemma GrantIsUnshared(cfg: DhcpConfig, s: Store, pkt: DhcpPacket, now: nat, k: Mac)
    requires Storable(s.byMac)
    requires Grants(cfg, s, pkt, now) && IsDynamic(cfg, pkt.chaddr)
    requires k in Live(s.byMac, now) && k != pkt.chaddr
    ensures s.byMac[k].ip != Assign(cfg, s, pkt.chaddr, now).value
  {
    AssignMeaning(cfg, s, pkt.chaddr, now);
  }

  /** No decision ever puts two clients on one address, for any value of the clock. */
  lemma DecideKeepsInjective(cfg: DhcpConfig, s: Store, pkt: DhcpPacket, now: Instant)
    requires Storable(s.byMac) && IpInjective(s.byMac)
    ensures IpInjective(After(cfg, s, pkt, now).byMac)
  {
    if Grants(cfg, s, pkt, now) && IsDynamic(cfg, pkt.chaddr) {
      forall k | k in Live(s.byMac, now) && k != pkt.chaddr
        ensures s.byMac[k].ip != Assign(cfg, s, pkt.chaddr, now).value
      {
        GrantIsUnshared(cfg, s, pkt, now, k);
      }
    }
  }

  /** Leases stay on pool addresses that no static binding uses. */
  lemma DecideKeepsConfined(cfg: DhcpConfig, s: Store, pkt: DhcpPacket, now: Instant)
    requires Confined(cfg, s.byMac)
    ensures Confined(cfg, After(cfg, s, pkt, now).byMac)
  {
    if Grants(cfg, s, pkt, now) && IsDynamic(cfg, pkt.chaddr) {
      AssignMeaning(cfg, s, pkt.chaddr, now);
    }
  }

  // ---- Who gets which answer ----

  /** A local REQUEST naming this server, or naming none while this server knows the client. */
  predicate ForThisServer(cfg: DhcpConfig, s: Store, pkt: DhcpPacket) {
    && pkt.giaddr == 0 && pkt.options.MsgType() == Some(Request)
    && match pkt.options.ServerId()
       case Some(id) => id == cfg.serverIp
       case None => pkt.chaddr in s.byMac || exists st :: st in cfg.statics && st.mac == pkt.chaddr
  }

  /** The client would take this address: it named it, or holds it, or has no preference. */
  predicate Accepts(pkt: DhcpPacket, ip: u32) {
    match pkt.options.RequestedIp()
    case Some(r) => r == 0 || r == ip
    case None => pkt.ciaddr == 0 || pkt.ciaddr == ip
  }

  /** When each answer is given: every kind exactly under its own condition. */
  lemma AnswersExactly(cfg: DhcpConfig, s: Store, pkt: DhcpPacket, now: Instant, ip: u32)
    ensures var a, given, kind := AnswerTo(cfg, s, pkt, now), Assign(cfg, s, pkt.chaddr, now), pkt.options.MsgType();
            && (a == Offering(ip) <==> pkt.giaddr == 0 && kind == Some(Discover) && given == Some(ip))
            && (a == Granting(ip) <==> ForThisServer(cfg, s, pkt) && given == Some(ip) && Accepts(pkt, ip))
            && (a == Refusing <==>
                  ForThisServer(cfg, s, pkt) && (given.None? || !Accepts(pkt, given.value)))
            && (a == Informing <==> pkt.giaddr == 0 && kind == Some(Inform) && pkt.ciaddr != 0)
  {
    assert Known(cfg, s, pkt.chaddr) <==>
           pkt.chaddr in s.byMac || exists st :: st in cfg.statics && st.mac == pkt.chaddr;
  }

  /** The address a DECLINE quarantines: the one named, else the one leased, else the one held; zero names none. */
  lemma DeclineTargets(cfg: DhcpConfig, s: Store, pkt: DhcpPacket, now: Instant)
    requires pkt.giaddr == 0 && pkt.options.MsgType() == Some(Decline)
    ensures var d, named := After(cfg, s, pkt, now).declined, pkt.options.RequestedIp();
            && (named == Some(0) ==> d == s.declined)
            && (named.Some? && named.value != 0 ==> d == s.declined[named.value := now + 3600])
            && (named.None? && pkt.chaddr in s.byMac && s.byMac[pkt.chaddr].ip != 0 ==>
                  d == s.declined[s.byMac[pkt.chaddr].ip := now + 3600])
            && (named.None? && pkt.chaddr !in s.byMac && pkt.ciaddr != 0 ==> d == s.declined[pkt.ciaddr := now + 3600])
            && (named.None? && pkt.chaddr !in s.byMac && pkt.ciaddr == 0 ==> d == s.declined)
  {
  }

  // ---- Frames ----

  /** The leases change only when the caller is told to save them. */
  lemma UnsavedMeansUnchanged(cfg: DhcpConfig, s: Store, pkt: DhcpPacket, now: Instant)
    requires !Saves(cfg, s, pkt, now)
    ensures After(cfg, s, pkt, now).byMac == s.byMac
  {
  }

  /** A packet never touches another client's unexpired lease, and creates none. */
  lemma OthersUntouched(cfg: DhcpConfig, s: Store, pkt: DhcpPacket, now: Instant, k: Mac)
    requires k != pkt.chaddr
    ensures var m := After(cfg, s, pkt, now).byMac;
            && (k in m ==> k in s.byMac && m[k] == s.byMac[k])
            && (k in s.byMac && s.byMac[k].expiresAt > now ==> k in m)
  {
  }

  /** A client with a static binding never has a lease recorded, changed or dropped. */
  lemma StaticClientsLeaveLeasesAlone(cfg: DhcpConfig, s: Store, pkt: DhcpPacket, now: Instant)
    requires !IsDynamic(cfg, pkt.chaddr)
    ensures After(cfg, s, pkt, now).byMac == s.byMac && !Saves(cfg, s, pkt, now)
  {
  }

  /** RELEASE and DECLINE end the client's lease without a reply, and ask for a save exactly when there was one. */
  lemma GivingUpForgets(cfg: DhcpConfig, s: Store, pkt: DhcpPacket, now: Instant)
    requires IsDynamic(cfg, pkt.chaddr) && (IsType(pkt, Release) || IsType(pkt, Decline))
    ensures AnswerTo(cfg, s, pkt, now) == Silent
    ensures After(cfg, s, pkt, now).byMac.Keys == s.byMac.Keys - {pkt.chaddr}
    ensures Saves(cfg, s, pkt, now) <==> After(cfg, s, pkt, now).byMac != s.byMac
  {
    var m := After(cfg, s, pkt, now).byMac;
    assert m == s.byMac - {pkt.chaddr};
    assert pkt.chaddr !in m;
    if pkt.chaddr !in s.byMac {
      assert m == s.byMac;
    }
  }

  /** Only a DECLINE adds or extends a quarantine, and only of the address it is about. */
  lemma QuarantineFrame(cfg: DhcpConfig, s: Store, pkt: DhcpPacket, now: Instant, ip: u32)
    requires !(IsType(pkt, Decline) && ip == Declined(s, pkt) && ip != 0)
    ensures var d := After(cfg, s, pkt, now).declined;
            && (ip in d ==> ip in s.declined && d[ip] == s.declined[ip])
            && (ip in s.declined && s.declined[ip] > now ==> ip in d)
  {
  }

  /** Relayed packets, packets without a type, REQUESTs to other servers and from strangers naming none are inert. */
  lemma NotForUsIsInert(cfg: DhcpConfig, s: Store, pkt: DhcpPacket, now: Instant)
    requires var sid := pkt.options.ServerId();
             || pkt.giaddr != 0 || pkt.options.MsgType().None?
             || (IsType(pkt, Request) && sid.Some? && sid.value != cfg.serverIp)
             || (IsType(pkt, Request) && sid.None? && IsDynamic(cfg, pkt.chaddr) && pkt.chaddr !in s.byMac)
    ensures AnswerTo(cfg, s, pkt, now) == Silent && After(cfg, s, pkt, now) == s && !Saves(cfg, s, pkt, now)
  {
  }

  /** An offer reserves nothing, yet on the same store at the same second the client that takes it up is granted it. */
  lemma OfferIsHonoured(cfg: DhcpConfig, s: Store, discover: DhcpPacket, request: DhcpPacket, now: Instant)
    requires AnswerTo(cfg, s, discover, now).Offering?
    requires IsType(request, Request) && request.chaddr == discover.chaddr
    requires request.options.ServerId() == Some(cfg.serverIp)
    requires Requested(request) == AnswerTo(cfg, s, discover, now).ip
    ensures After(cfg, s, discover, now) == s && !Saves(cfg, s, discover, now)
    ensures AnswerTo(cfg, After(cfg, s, discover, now), request, now) == Granting(AnswerTo(cfg, s, discover, now).ip)
  {
  }

  /** A grant to a client without a static binding leaves exactly that lease under its MAC. */
  lemma GrantedLease(cfg: DhcpConfig, s: Store, pkt: DhcpPacket, now: Instant)
    requires AnswerTo(cfg, s, pkt, now).Granting? && IsDynamic(cfg, pkt.chaddr)
    ensures var ip := AnswerTo(cfg, s, pkt, now).ip;
            && Saves(cfg, s, pkt, now)
            && pkt.chaddr in After(cfg, s, pkt, now).byMac
            && After(cfg, s, pkt, now).byMac[pkt.chaddr]
               == Lease(pkt.chaddr, ip, pkt.options.Hostname(), now + cfg.leaseTime)
            && cfg.InPool(ip) && ip !in cfg.StaticIps()
  {
    AssignMeaning(cfg, s, pkt.chaddr, now);
  }

  lemma StaticGrant(cfg: DhcpConfig, s: Store, pkt: DhcpPacket, now: Instant)
    requires AnswerTo(cfg, s, pkt, now).Granting? && !IsDynamic(cfg, pkt.chaddr)
    ensures AnswerTo(cfg, s, pkt, now).ip == cfg.StaticFor(pkt.chaddr).value.ip
    ensures !Saves(cfg, s, pkt, now)
  {
  }

  // ---- Quarantine ----

  /** A DECLINE holds the address for an hour from now. */
  lemma DeclineQuarantines(cfg: DhcpConfig, s: Store, pkt: DhcpPacket, now: Instant)
    requires IsType(pkt, Decline) && Declined(s, pkt) != 0
    ensures Declined(s, pkt) in After(cfg, s, pkt, now).declined
    ensures After(cfg, s, pkt, now).declined[Declined(s, pkt)] == now + 3600
  {
  }

  predicate HeldUntil(s: Store, ip: u32, until: nat) {
    ip in s.declined && s.declined[ip] >= until
  }

  /** No later packet shortens a quarantine that has not run out. */
  lemma DecideKeepsQuarantine(cfg: DhcpConfig, s: Store, pkt: DhcpPacket, now: Instant, ip: u32, until: nat)
    requires HeldUntil(s, ip, until) && now < until <= now + 3600
    ensures HeldUntil(After(cfg, s, pkt, now), ip, until)
  {
  }

  /** A held address is neither offered nor granted to a client without a static binding. */
  lemma HeldIsNotGiven(cfg: DhcpConfig, s: Store, pkt: DhcpPacket, now: Instant, ip: u32, until: nat)
    requires HeldUntil(s, ip, until) && now < until && IsDynamic(cfg, pkt.chaddr)
    ensures AnswerTo(cfg, s, pkt, now) != Offering(ip) && AnswerTo(cfg, s, pkt, now) != Granting(ip)
  {
    AssignMeaning(cfg, s, pkt.chaddr, now);
  }

  /** A quarantined address is offered or granted exactly to a client statically bound to it, who asks as usual. */
  lemma QuarantinedIsGivenExactly(cfg: DhcpConfig, s: Store, pkt: DhcpPacket, now: Instant, ip: u32)
    requires s.IsQuarantined(ip, now)
    ensures var bound := cfg.StaticFor(pkt.chaddr).Some? && cfg.StaticFor(pkt.chaddr).value.ip == ip;
            && (AnswerTo(cfg, s, pkt, now) == Offering(ip) <==> IsType(pkt, Discover) && bound)
            && (AnswerTo(cfg, s, pkt, now) == Granting(ip) <==>
                  ForThisServer(cfg, s, pkt) && bound && Accepts(pkt, ip))
  {
    AnswersExactly(cfg, s, pkt, now, ip);
    QuarantinedExactly(cfg, s, pkt.chaddr, now, ip);
  }

  /** The client that just declined its static address is offered it again at once. */
  lemma DeclinedStaticIsOffered(cfg: DhcpConfig, s: Store, decline: DhcpPacket, discover: DhcpPacket, now: Instant)
    requires Valid(cfg) && cfg.StaticFor(discover.chaddr).Some?
    requires IsType(decline, Decline) && IsType(discover, Discover)
    requires decline.options.RequestedIp() == Some(cfg.StaticFor(discover.chaddr).value.ip)
    ensures var s', ip := After(cfg, s, decline, now), cfg.StaticFor(discover.chaddr).value.ip;
            s'.IsQuarantined(ip, now) && AnswerTo(cfg, s', discover, now) == Offering(ip)
  {
    StaticIsHost(cfg, discover.chaddr);
    DeclineTargets(cfg, s, decline, now);
    QuarantinedIsGivenExactly(cfg, After(cfg, s, decline, now), discover, now, cfg.StaticFor(discover.chaddr).value.ip);
  }

  // ---- Renewal ----

  lemma OwnIsAssignedExactly(cfg: DhcpConfig, s: Store, mac: Mac, now: nat)
    requires Valid(cfg) && IsDynamic(cfg, mac) && mac in s.byMac
    requires cfg.InPool(s.byMac[mac].ip) && s.byMac[mac].ip !in cfg.StaticIps()
    ensures var ip := s.byMac[mac].ip;
            Assign(cfg, s, mac, now) == Some(ip) <==> !s.IsQuarantined(ip, now) && !s.TakenByOther(ip, mac, now)
  {
    var ip := s.byMac[mac].ip;
    ReservedInPool(cfg, ip);
    assert OwnUsable(cfg, s, mac, now) <==> !s.IsQuarantined(ip, now) && !s.TakenByOther(ip, mac, now);
    AssignMeaning(cfg, s, mac, now);
  }

  /** A client asking again for its address is granted it exactly when that is neither quarantined nor taken. */
  lemma RenewalGranted(cfg: DhcpConfig, s: Store, pkt: DhcpPacket, now: Instant)
    requires Valid(cfg)
    requires IsDynamic(cfg, pkt.chaddr) && pkt.chaddr in s.byMac
    requires var ip := s.byMac[pkt.chaddr].ip;
             && cfg.InPool(ip) && ip !in cfg.StaticIps()
             && (Requested(pkt) == 0 || Requested(pkt) == ip)
    requires IsType(pkt, Request)
    requires pkt.options.ServerId().Some? ==> pkt.options.ServerId().value == cfg.serverIp
    ensures var ip := s.byMac[pkt.chaddr].ip;
            AnswerTo(cfg, s, pkt, now) == Granting(ip) <==>
            !s.IsQuarantined(ip, now) && !s.TakenByOther(ip, pkt.chaddr, now)
  {
    OwnIsAssignedExactly(cfg, s, pkt.chaddr, now);
    assert Addressed(cfg, s, pkt);
  }

  // ---- Retransmission ----

  lemma StickyAfterGrant(cfg: DhcpConfig, s: Store, pkt: DhcpPacket, now: Instant)
    requires Grants(cfg, s, pkt, now) && IsDynamic(cfg, pkt.chaddr)
    ensures Assign(cfg, After(cfg, s, pkt, now), pkt.chaddr, now) == Assign(cfg, s, pkt.chaddr, now)
  {
    var mac, ip, s' := pkt.chaddr, Assign(cfg, s, pkt.chaddr, now).value, After(cfg, s, pkt, now);
    AssignMeaning(cfg, s, mac, now);
    assert Usable(cfg, s, mac, now, ip);
    assert !s'.TakenByOther(ip, mac, now) by {
      assert !s.TakenByOther(ip, mac, now);
    }
    assert OwnUsable(cfg, s', mac, now);
    AssignMeaning(cfg, s', mac, now);
  }

  /** Handling a REQUEST twice in the same second answers twice the same and changes nothing more. */
  lemma RequestIsIdempotent(cfg: DhcpConfig, s: Store, pkt: DhcpPacket, now: Instant)
    requires IsType(pkt, Request)
    ensures var s' := After(cfg, s, pkt, now);
            && AnswerTo(cfg, s', pkt, now) == AnswerTo(cfg, s, pkt, now)
            && After(cfg, s', pkt, now) == s'
            && Saves(cfg, s', pkt, now) == Saves(cfg, s, pkt, now)
  {
    if Grants(cfg, s, pkt, now) && IsDynamic(cfg, pkt.chaddr) {
      var s' := After(cfg, s, pkt, now);
      StickyAfterGrant(cfg, s, pkt, now);
      assert Grants(cfg, s', pkt, now);
      var l := NewLease(cfg, pkt, Assign(cfg, s, pkt.chaddr, now).value, now);
      PurgeInsertTwice(s, l, now);
    }
  }

  lemma PurgeInsertTwice(s: Store, l: Lease, now: nat)
    ensures s.Purge(now).Insert(l).Purge(now).Insert(l) == s.Purge(now).Insert(l)
  {
  }

  /**
   A DECLINE that names no address is about the client's lease, and the same DECLINE again about its `ciaddr`: handling
   it twice in the same second is handling it once unless that adds or moves a quarantine.
   */
  lemma DeclineIsIdempotentExactly(cfg: DhcpConfig, s: Store, pkt: DhcpPacket, now: Instant)
    requires IsType(pkt, Decline)
    ensures var s' := After(cfg, s, pkt, now);
            After(cfg, s', pkt, now) == s' <==>
            !(&& IsDynamic(cfg, pkt.chaddr) && pkt.options.RequestedIp().None? && pkt.chaddr in s.byMac
              && pkt.ciaddr != 0 && pkt.ciaddr != s.byMac[pkt.chaddr].ip
              && !(pkt.ciaddr in s.declined && s.declined[pkt.ciaddr] == now + 3600))
  {
    var s', declined := After(cfg, s, pkt, now), Declined(s, pkt);
    var left := if IsDynamic(cfg, pkt.chaddr) then s.Remove(pkt.chaddr) else s;
    assert s' == if declined != 0 then left.Quarantine(declined, now + 3600) else left;
    DeclineAgain(cfg, s', pkt, now);
  }

  /** A DECLINE from a client that has no lease to lose changes nothing but the quarantine. */
  lemma DeclineAgain(cfg: DhcpConfig, s: Store, pkt: DhcpPacket, now: Instant)
    requires IsType(pkt, Decline) && (IsDynamic(cfg, pkt.chaddr) ==> pkt.chaddr !in s.byMac)
    ensures var d := Declined(s, pkt);
            After(cfg, s, pkt, now) == s <==> d == 0 || (d in s.declined && s.declined[d] == now + 3600)
  {
    assert IsDynamic(cfg, pkt.chaddr) ==> s.Remove(pkt.chaddr) == s;
    var d, until := Declined(s, pkt), now + 3600;
    assert d in s.declined && s.declined[d] == until ==> s.declined[d := until] == s.declined;
  }

  // ---- Purging early ----

  lemma PurgeKeepsUsable(cfg: DhcpConfig, s: Store, mac: Mac, t: nat, now: nat, ip: u32)
    requires t <= now
    ensures Usable(cfg, s.Purge(t), mac, now, ip) == Usable(cfg, s, mac, now, ip)
  {
    var p := s.Purge(t);
    assert p.TakenByOther(ip, mac, now) == s.TakenByOther(ip, mac, now) by {
      assert forall k :: k in p.byMac ==> k in s.byMac && p.byMac[k] == s.byMac[k];
      assert forall k :: k in s.byMac && s.byMac[k].expiresAt > now ==> k in p.byMac;
    }
  }

  /** The condition for a sweep to go unnoticed by this client: it has no lease, or one the sweep keeps. */
  predicate Unswept(s: Store, mac: Mac, t: nat) {
    mac in s.byMac ==> s.byMac[mac].expiresAt > t
  }

  lemma PurgeKeepsAssign(cfg: DhcpConfig, s: Store, mac: Mac, t: nat, now: nat)
    requires t <= now && Unswept(s, mac, t)
    ensures Assign(cfg, s.Purge(t), mac, now) == Assign(cfg, s, mac, now)
  {
    var p := s.Purge(t);
    forall ip: u32
      ensures Usable(cfg, p, mac, now, ip) == Usable(cfg, s, mac, now, ip)
    {
      PurgeKeepsUsable(cfg, s, mac, t, now, ip);
    }
    assert OwnUsable(cfg, p, mac, now) == OwnUsable(cfg, s, mac, now);
    SameTestSameFirst((ip: u32) => Usable(cfg, p, mac, now, ip), (ip: u32) => Usable(cfg, s, mac, now, ip),
                      cfg.poolStart, cfg.poolEnd);
  }

  lemma PurgeKeepsAnswer(cfg: DhcpConfig, s: Store, pkt: DhcpPacket, t: nat, now: Instant)
    requires t <= now && Unswept(s, pkt.chaddr, t)
    ensures Grants(cfg, s.Purge(t), pkt, now) == Grants(cfg, s, pkt, now)
    ensures AnswerTo(cfg, s.Purge(t), pkt, now) == AnswerTo(cfg, s, pkt, now)
    ensures Saves(cfg, s.Purge(t), pkt, now) == Saves(cfg, s, pkt, now)
  {
    PurgeKeepsAssign(cfg, s, pkt.chaddr, t, now);
    assert Known(cfg, s.Purge(t), pkt.chaddr) == Known(cfg, s, pkt.chaddr);
  }

  lemma PurgeBeforeDecline(cfg: DhcpConfig, s: Store, pkt: DhcpPacket, t: nat, now: Instant)
    requires t <= now && Unswept(s, pkt.chaddr, t) && IsType(pkt, Decline)
    ensures After(cfg, s.Purge(t), pkt, now).Purge(now) == After(cfg, s, pkt, now).Purge(now)
  {
    var declined := Declined(s, pkt);
    assert Declined(s.Purge(t), pkt) == declined;
    PurgeTwice(s, t, now);
    RemoveCommutesWithPurge(s, pkt.chaddr, t, now);
    if declined != 0 {
      QuarantineCommutesWithPurge(s, declined, now + 3600, t, now);
      QuarantineCommutesWithPurge(s.Remove(pkt.chaddr), declined, now + 3600, t, now);
    }
  }

  /** A sweep before a packet changes neither the answer nor the save flag nor, up to expired entries, the store. */
  lemma PurgeIsInvisible(cfg: DhcpConfig, s: Store, pkt: DhcpPacket, t: nat, now: Instant)
    requires t <= now && Unswept(s, pkt.chaddr, t)
    ensures AnswerTo(cfg, s.Purge(t), pkt, now) == AnswerTo(cfg, s, pkt, now)
    ensures Saves(cfg, s.Purge(t), pkt, now) == Saves(cfg, s, pkt, now)
    ensures After(cfg, s.Purge(t), pkt, now).Purge(now) == After(cfg, s, pkt, now).Purge(now)
  {
    PurgeKeepsAnswer(cfg, s, pkt, t, now);
    PurgeKeepsAssign(cfg, s, pkt.chaddr, t, now);
    PurgeTwice(s, t, now);
    if IsType(pkt, Decline) {
      PurgeBeforeDecline(cfg, s, pkt, t, now);
    } else if IsType(pkt, Release) {
      RemoveCommutesWithPurge(s, pkt.chaddr, t, now);
    }
  }

  lemma RemoveCommutesWithPurge(s: Store, mac: Mac, t: nat, now: nat)
    requires t <= now
    ensures s.Purge(t).Remove(mac) == s.Remove(mac).Purge(t)
    ensures s.Purge(t).Remove(mac).Purge(now) == s.Remove(mac).Purge(now)
  {
  }

  lemma QuarantineCommutesWithPurge(s: Store, ip: u32, until: u64, t: nat, now: nat)
    requires t <= now
    ensures s.Purge(t).Quarantine(ip, until).Purge(now) == s.Quarantine(ip, until).Purge(now)
  {
  }

  /** The request that notices: a REQUEST naming no server, from this client. */
  function BareRequest(mac: Mac): DhcpPacket {
    DhcpPacket(0, 0, 0, 0, mac, Options([Item(OPT_MSG_TYPE, [3])]))
  }

  /** The condition is exact: a sweep changes no answer to a client exactly when it keeps that client's lease. */
  lemma PurgeInvisibleExactly(cfg: DhcpConfig, s: Store, mac: Mac, t: nat, now: Instant)
    requires t <= now && IsDynamic(cfg, mac)
    ensures Unswept(s, mac, t) <==>
            forall pkt: DhcpPacket :: pkt.chaddr == mac ==>
              AnswerTo(cfg, s.Purge(t), pkt, now) == AnswerTo(cfg, s, pkt, now)
  {
    if Unswept(s, mac, t) {
      forall pkt: DhcpPacket | pkt.chaddr == mac
        ensures AnswerTo(cfg, s.Purge(t), pkt, now) == AnswerTo(cfg, s, pkt, now)
      {
        PurgeIsInvisible(cfg, s, pkt, t, now);
      }
    } else {
      var pkt := BareRequest(mac);
      assert pkt.options.MsgType() == Some(Request) && pkt.options.ServerId().None?;
      assert AnswerTo(cfg, s.Purge(t), pkt, now) == Silent;
      assert AnswerTo(cfg, s, pkt, now) != Silent;
    }
  }

  // ---- On the wire ----

  /** What a client reads from a reply: its type, the address granted and whether a lease time comes with it. */
  datatype Reading = Reading(mtype: Option<MessageType>, yiaddr: u32, leaseTime: Option<seq<byte>>)

  function ReadReply(d: seq<byte>): Reading
    requires |d| >= MIN_LEN
  {
    var o := Options(ParseItems(d[MIN_LEN..]));
    Reading(o.MsgType(), ReadIpv4(d, 16), o.Get(OPT_LEASE_TIME))
  }

  function Meaning(cfg: DhcpConfig, a: Answer): Reading
    requires !a.Silent?
  {
    match a
    case Offering(ip) => Reading(Some(MessageType.Offer), ip, Some(Octets(cfg.leaseTime)))
    case Granting(ip) => Reading(Some(MessageType.Ack), ip, Some(Octets(cfg.leaseTime)))
    case Refusing => Reading(Some(Nak), 0, None)
    case Informing => Reading(Some(MessageType.Ack), 0, None)
  }

  /** The items of a reply carry the type first, and a lease time exactly when asked to. */
  lemma ReplyItemsRead(req: DhcpPacket, cfg: DhcpConfig, mt: MessageType, includeLease: bool)
    requires |cfg.dns| <= 63
    ensures var o := Options(Builder.ReplyItems(req, cfg, mt, includeLease));
            && o.MsgType() == Some(mt) && o.Get(OPT_MSG_TYPE) == Some([ToU8(mt)])
            && o.Get(OPT_LEASE_TIME) == (if includeLease && mt != Nak then Some(Octets(cfg.leaseTime)) else None)
  {
    var items := Builder.ReplyItems(req, cfg, mt, includeLease);
    assert items[0] == Item(OPT_MSG_TYPE, [ToU8(mt)]);
    FindUnique(items, 0);
    if includeLease && mt != Nak {
      assert items[2] == Item(OPT_LEASE_TIME, Octets(cfg.leaseTime));
      FindUnique(items, 2);
    } else {
      assert forall i :: 0 <= i < |items| ==> items[i].code != OPT_LEASE_TIME;
    }
  }

  lemma FindUnique(items: seq<Item>, i: nat)
    requires i < |items| && forall j :: 0 <= j < i ==> items[j].code != items[i].code
    ensures Find(items, items[i].code) == Some(items[i].data)
  {
    var r := Find(items, items[i].code);
    var k :| 0 <= k < |items| && items[k] == Item(items[i].code, r.value)
             && forall j :: 0 <= j < k ==> items[j].code != items[i].code;
    assert k == i;
  }

  lemma ReplyReads(req: DhcpPacket, cfg: DhcpConfig, yiaddr: u32, mt: MessageType, includeLease: bool)
    requires |cfg.dns| <= 63
    ensures var d := Builder.Reply(req, cfg, yiaddr, mt, includeLease);
            |d| >= MIN_LEN && ReadReply(d)
            == Reading(Some(mt), yiaddr, if includeLease && mt != Nak then Some(Octets(cfg.leaseTime)) else None)
  {
    var d := Builder.Reply(req, cfg, yiaddr, mt, includeLease);
    var tail := Encode(Builder.ReplyItems(req, cfg, mt, includeLease)) + [OPT_END];
    Builder.ReplyParses(req, cfg, yiaddr, mt, includeLease, []);
    assert d + [] == d;
    Builder.HeaderFields(req, cfg, yiaddr, tail);
    ReplyItemsRead(req, cfg, mt, includeLease);
  }

  /** The bytes sent say exactly the answer decided, and different answers are different bytes. */
  lemma RenderedReads(cfg: DhcpConfig, pkt: DhcpPacket, a: Answer)
    requires |cfg.dns| <= 63
    ensures Rendered(cfg, pkt, a).None? <==> a == Silent
    ensures a != Silent ==>
              var d := Rendered(cfg, pkt, a).value.0;
              240 < |d| <= 522 && ReadReply(d) == Meaning(cfg, a)
  {
    if a != Silent {
      var yiaddr := if a.Offering? || a.Granting? then a.ip else 0;
      var mt := if a.Offering? then MessageType.Offer else if a.Refusing? then Nak else MessageType.Ack;
      var lease := a.Offering? || a.Granting?;
      ReplyReads(pkt, cfg, yiaddr, mt, lease);
      Builder.ReplyIsSmall(pkt, cfg, yiaddr, mt, lease);
    }
  }

  lemma BroadcastFlag(pkt: DhcpPacket)
    ensures WantsBroadcast(pkt) <==> pkt.flags >= 0x8000
  {
  }

  lemma InformedHasAddress(cfg: DhcpConfig, s: Store, pkt: DhcpPacket, now: Instant)
    ensures AnswerTo(cfg, s, pkt, now).Informing? ==> pkt.ciaddr != 0
  {
  }

  lemma ReplyNamesServer(req: DhcpPacket, cfg: DhcpConfig, mt: MessageType, includeLease: bool)
    requires |cfg.dns| <= 63
    ensures Options(Builder.ReplyItems(req, cfg, mt, includeLease)).Get(OPT_SERVER_ID) == Some(Octets(cfg.serverIp))
  {
    var items := Builder.ReplyItems(req, cfg, mt, includeLease);
    assert items[0].code == OPT_MSG_TYPE && items[1] == Item(OPT_SERVER_ID, Octets(cfg.serverIp));
    FindUnique(items, 1);
  }

  lemma NakHasNoParameters(req: DhcpPacket, cfg: DhcpConfig, includeLease: bool)
    requires |cfg.dns| <= 63
    ensures var o := Options(Builder.ReplyItems(req, cfg, Nak, includeLease));
            && o.Get(OPT_SUBNET_MASK).None? && o.Get(OPT_LEASE_TIME).None? && o.Get(OPT_ROUTER).None?
            && o.Get(OPT_DNS).None?
  {
    var items := Builder.ReplyItems(req, cfg, Nak, includeLease);
    assert items == Builder.IdentityItems(cfg, Nak);
  }

  /** The optional parameters: the mask always, the router and the DNS list when configured and wanted. */
  lemma ReplyParameters(req: DhcpPacket, cfg: DhcpConfig, mt: MessageType, includeLease: bool)
    requires |cfg.dns| <= 63 && mt != Nak
    ensures var o := Options(Builder.ReplyItems(req, cfg, mt, includeLease));
            && o.Get(OPT_SUBNET_MASK) == Some(Octets(cfg.subnetMask))
            && o.Get(OPT_ROUTER)
               == (if cfg.router.Some? && Builder.Wants(req, OPT_ROUTER) then Some(Octets(cfg.router.value)) else None)
            && o.Get(OPT_DNS)
               == (if cfg.dns != [] && Builder.Wants(req, OPT_DNS) then Some(OctetsOfAll(cfg.dns)) else None)
  {
    var head := Builder.IdentityItems(cfg, mt) + Builder.LeaseItems(cfg, includeLease);
    var router, dns := Builder.RouterItems(req, cfg), Builder.DnsItems(req, cfg);
    assert Builder.ReplyItems(req, cfg, mt, includeLease) == head + (router + dns);
    HeadFinds(cfg, mt, includeLease);
    OptionalFinds(req, cfg);
    SearchInTurn(head, router, dns, OPT_SUBNET_MASK);
    SearchInTurn(head, router, dns, OPT_ROUTER);
    SearchInTurn(head, router, dns, OPT_DNS);
  }

  lemma SearchInTurn(a: seq<Item>, b: seq<Item>, c: seq<Item>, code: byte)
    ensures Find(a + (b + c), code)
            == if Find(a, code).Some? then Find(a, code)
               else if Find(b, code).Some? then Find(b, code)
               else Find(c, code)
  {
    FindInConcat(a, b + c, code);
    FindInConcat(b, c, code);
  }

  lemma OptionalFinds(req: DhcpPacket, cfg: DhcpConfig)
    requires |cfg.dns| <= 63
    ensures var router, dns := Builder.RouterItems(req, cfg), Builder.DnsItems(req, cfg);
            && Find(router, OPT_DNS).None? && Find(dns, OPT_ROUTER).None?
            && Find(router, OPT_ROUTER)
               == (if cfg.router.Some? && Builder.Wants(req, OPT_ROUTER) then Some(Octets(cfg.router.value)) else None)
            && Find(dns, OPT_DNS)
               == (if cfg.dns != [] && Builder.Wants(req, OPT_DNS) then Some(OctetsOfAll(cfg.dns)) else None)
  {
  }

  lemma HeadFinds(cfg: DhcpConfig, mt: MessageType, includeLease: bool)
    ensures var head := Builder.IdentityItems(cfg, mt) + Builder.LeaseItems(cfg, includeLease);
            && Find(head, OPT_SUBNET_MASK) == Some(Octets(cfg.subnetMask))
            && Find(head, OPT_ROUTER).None? && Find(head, OPT_DNS).None?
  {
    var mask := Octets(cfg.subnetMask);
    var head := Builder.IdentityItems(cfg, mt) + Builder.LeaseItems(cfg, includeLease);
    var front := head[..|head| - 1];
    assert head == front + [Item(OPT_SUBNET_MASK, mask)];
    FindAtEnd(front, mask);
  }

  lemma FindAtEnd(front: seq<Item>, mask: seq<byte>)
    requires forall i :: 0 <= i < |front| ==> front[i].code in {OPT_MSG_TYPE, OPT_SERVER_ID, OPT_LEASE_TIME}
    ensures var head := front + [Item(OPT_SUBNET_MASK, mask)];
            && Find(head, OPT_SUBNET_MASK) == Some(mask)
            && Find(head, OPT_ROUTER).None? && Find(head, OPT_DNS).None?
  {
    FindUnique(front + [Item(OPT_SUBNET_MASK, mask)], |front|);
  }

  /** A later list is searched only when the earlier one does not have the code. */
  lemma {:induction false} FindInConcat(a: seq<Item>, b: seq<Item>, code: byte)
    ensures Find(a + b, code) == if Find(a, code).Some? then Find(a, code) else Find(b, code)
  {
    if a == [] {
      assert a + b == b;
    } else {
      assert (a + b)[1..] == a[1..] + b;
      FindInConcat(a[1..], b, code);
    }
  }
}
