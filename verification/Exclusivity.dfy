/** Crash-safe exclusivity and renewal: what every run with successful saves and a forward clock keeps. */
module Exclusivity {
  import opened Base
  import opened Config
  import opened Message
  import opened Packet
  import opened LeaseFile
  import opened LeaseStorage
  import opened Allocator
  import opened Protocol
  import opened ProtocolLaws
  import opened System

  /** The map still holds the lease an ACK promised, for at least as long. */
  predicate Backs(m: LeaseMap, mac: Mac, a: AckRecord) {
    mac in m && m[mac].ip == a.ip && m[mac].expiresAt >= a.expiresAt
  }

  /** An address an ACK may name: the client's static one, or a pool address no static binding uses. */
  predicate Proper(cfg: DhcpConfig, mac: Mac, ip: u32) {
    var st := cfg.StaticFor(mac);
    if st.Some? then ip == st.value.ip else cfg.InPool(ip) && ip !in cfg.StaticIps()
  }

  predicate InForce(s: State, mac: Mac) {
    mac in s.acks && s.acks[mac].expiresAt > s.clock
  }

  /** The decided grant to this client is not on disk yet. */
  predicate Pending(s: State, mac: Mac) {
    s.phase.Committing? && s.phase.job.answer.Granting? && s.phase.job.pkt.chaddr == mac
  }

  /** No other client has a live lease on this address. */
  predicate Alone(m: LeaseMap, mac: Mac, ip: u32, now: nat) {
    forall k :: k in m && k != mac && m[k].expiresAt > now ==> m[k].ip != ip
  }

  /** A statically bound client's lease, which no packet ends, keeps the address out of the pool for as long. */
  ghost predicate Shielded(cfg: DhcpConfig, m: LeaseMap, a: AckRecord) {
    exists k :: k in m && !IsDynamic(cfg, k) && m[k].ip == a.ip && m[k].expiresAt >= a.expiresAt
  }

  /**
   The map keeps the ACK's address from everyone else: by the client's own lease with nobody else there, or, where that
   is not asked for, by its own lease or a shield.
   */
  ghost predicate Holds(cfg: DhcpConfig, m: LeaseMap, mac: Mac, a: AckRecord, now: nat, alone: bool) {
    if alone then Backs(m, mac, a) && Alone(m, mac, a.ip, now) else Backs(m, mac, a) || Shielded(cfg, m, a)
  }

  /** The daemon runs, and this unexpired ACK is not about to be replaced. */
  predicate Relied(cfg: DhcpConfig, s: State, mac: Mac) {
    IsDynamic(cfg, mac) && InForce(s, mac) && !s.phase.Down? && !Pending(s, mac)
  }

  ghost predicate AckInMemory(cfg: DhcpConfig, s: State, mac: Mac, alone: bool)
    requires mac in s.acks
  {
    Relied(cfg, s, mac) ==> Holds(cfg, s.store.byMac, mac, s.acks[mac], s.clock, alone)
  }

  ghost predicate AckOnDisk(cfg: DhcpConfig, s: State, mac: Mac, alone: bool)
    requires mac in s.acks
  {
    IsDynamic(cfg, mac) && InForce(s, mac) ==> Holds(cfg, LoadText(s.file), mac, s.acks[mac], s.clock, alone)
  }

  /** What is true of every ACK whatever was lost: it is proper, and memory is no worse than the file. */
  ghost predicate AckSound(cfg: DhcpConfig, s: State, mac: Mac)
    requires mac in s.acks
  {
    var a := s.acks[mac];
    && Proper(cfg, mac, a.ip)
    && a.expiresAt <= s.clock + cfg.leaseTime
    && (Pending(s, mac) && InForce(s, mac) ==> a.expiresAt <= AckOf(cfg, s.phase.job).expiresAt)
    && (AckOnDisk(cfg, s, mac, false) ==> AckInMemory(cfg, s, mac, false))
  }

  /** A grant about to be saved or sent is in memory, and no other live lease is on its address. */
  ghost predicate GrantInMemory(cfg: DhcpConfig, s: State) {
    (s.phase.Committing? || s.phase.Sending?) && s.phase.job.answer.Granting? ==>
      var job := s.phase.job;
      && job.at <= s.clock && Proper(cfg, job.pkt.chaddr, job.answer.ip)
      && (s.phase.Committing? ==> IsDynamic(cfg, job.pkt.chaddr))
      && (IsDynamic(cfg, job.pkt.chaddr) ==> Holds(cfg, s.store.byMac, job.pkt.chaddr, AckOf(cfg, job), s.clock, true))
  }

  /** Kept by every run whose clock goes forward, whatever is lost. */
  ghost predicate Sound(cfg: DhcpConfig, s: State) {
    && Storable(s.store.byMac) && GrantInMemory(cfg, s)
    && forall mac :: mac in s.acks ==> AckSound(cfg, s, mac)
  }

  ghost const EVERYONE: iset<Mac> := iset mac: Mac | true

  /** And for these clients nothing was lost from memory. */
  ghost predicate MemorySafe(cfg: DhcpConfig, s: State, who: iset<Mac>, alone: bool) {
    Sound(cfg, s) && forall mac :: mac in s.acks && mac in who ==> AckInMemory(cfg, s, mac, alone)
  }

  /** A grant that would be in force once sent is on disk before it is sent. */
  ghost predicate GrantOnDisk(cfg: DhcpConfig, s: State, alone: bool) {
    s.phase.Sending? && s.phase.job.answer.Granting? && IsDynamic(cfg, s.phase.job.pkt.chaddr) ==>
      var a := AckOf(cfg, s.phase.job);
      a.expiresAt > s.clock ==> Holds(cfg, LoadText(s.file), s.phase.job.pkt.chaddr, a, s.clock, alone)
  }

  ghost predicate AcksOnDisk(cfg: DhcpConfig, s: State, who: iset<Mac>, alone: bool) {
    forall mac :: mac in s.acks && mac in who ==> AckOnDisk(cfg, s, mac, alone)
  }

  /** Every ACK in force is on disk, and so is a grant about to be sent. */
  ghost predicate DiskSafe(cfg: DhcpConfig, s: State, alone: bool) {
    GrantOnDisk(cfg, s, alone) && AcksOnDisk(cfg, s, EVERYONE, alone)
  }

  ghost predicate Safe(cfg: DhcpConfig, s: State, alone: bool) {
    MemorySafe(cfg, s, EVERYONE, alone) && DiskSafe(cfg, s, alone)
  }

  // ---- One client through one step ----

  lemma NormalHolds(cfg: DhcpConfig, m: LeaseMap, mac: Mac, a: AckRecord, now: nat, alone: bool)
    requires Holds(cfg, m, mac, a, now, alone)
    ensures Holds(cfg, NormalMap(m), mac, a, now, alone)
  {
    if Shielded(cfg, m, a) {
      var k :| k in m && !IsDynamic(cfg, k) && m[k].ip == a.ip && m[k].expiresAt >= a.expiresAt;
      assert k in NormalMap(m);
    }
  }

  lemma LiveHolds(cfg: DhcpConfig, m: LeaseMap, mac: Mac, a: AckRecord, now: nat, alone: bool)
    requires Holds(cfg, m, mac, a, now, alone) && a.expiresAt > now
    ensures Holds(cfg, Live(m, now), mac, a, now, alone)
  {
    if Shielded(cfg, m, a) {
      var k :| k in m && !IsDynamic(cfg, k) && m[k].ip == a.ip && m[k].expiresAt >= a.expiresAt;
      assert k in Live(m, now);
    }
  }

  /** A grant finds no other live lease on its address and leaves none there. */
  lemma GrantIsAlone(cfg: DhcpConfig, s: Store, pkt: DhcpPacket, now: Instant)
    requires Storable(s.byMac) && AnswerTo(cfg, s, pkt, now).Granting? && IsDynamic(cfg, pkt.chaddr)
    ensures Alone(After(cfg, s, pkt, now).byMac, pkt.chaddr, AnswerTo(cfg, s, pkt, now).ip, now)
  {
    var m := After(cfg, s, pkt, now).byMac;
    forall k | k in m && k != pkt.chaddr && m[k].expiresAt > now
      ensures m[k].ip != AnswerTo(cfg, s, pkt, now).ip
    {
      GrantIsUnshared(cfg, s, pkt, now, k);
    }
  }

  lemma ReceiveKeepsGrant(cfg: DhcpConfig, s: State, pkt: DhcpPacket)
    requires s.phase.Waiting? && Storable(s.store.byMac)
    ensures GrantInMemory(cfg, DoReceive(cfg, s, pkt))
  {
    if AnswerTo(cfg, s.store, pkt, s.clock).Granting? {
      if IsDynamic(cfg, pkt.chaddr) {
        GrantedLease(cfg, s.store, pkt, s.clock);
        GrantIsAlone(cfg, s.store, pkt, s.clock);
      } else {
        StaticGrant(cfg, s.store, pkt, s.clock);
      }
    }
  }

  /** A lease in force keeps every other client off its address. */
  lemma ReceiveKeepsAlone(cfg: DhcpConfig, s: Store, pkt: DhcpPacket, now: Instant, mac: Mac)
    requires Storable(s.byMac) && mac != pkt.chaddr && mac in s.byMac && s.byMac[mac].expiresAt > now
    requires Alone(s.byMac, mac, s.byMac[mac].ip, now)
    ensures Alone(After(cfg, s, pkt, now).byMac, mac, s.byMac[mac].ip, now)
  {
    if Grants(cfg, s, pkt, now) && IsDynamic(cfg, pkt.chaddr) {
      GrantIsUnshared(cfg, s, pkt, now, mac);
    }
  }

  lemma ReceiveKeepsShield(cfg: DhcpConfig, s: Store, pkt: DhcpPacket, now: Instant, a: AckRecord)
    requires Shielded(cfg, s.byMac, a) && a.expiresAt > now
    ensures Shielded(cfg, After(cfg, s, pkt, now).byMac, a)
  {
    var m := s.byMac;
    var k :| k in m && !IsDynamic(cfg, k) && m[k].ip == a.ip && m[k].expiresAt >= a.expiresAt;
    if k == pkt.chaddr {
      StaticClientsLeaveLeasesAlone(cfg, s, pkt, now);
    } else {
      OthersUntouched(cfg, s, pkt, now, k);
    }
  }

  /** A packet from another client leaves what holds this client's address. */
  lemma ReceiveKeepsHolds(cfg: DhcpConfig, s: Store, pkt: DhcpPacket, now: Instant, mac: Mac, a: AckRecord, alone: bool)
    requires Storable(s.byMac) && mac != pkt.chaddr && a.expiresAt > now && Holds(cfg, s.byMac, mac, a, now, alone)
    ensures Holds(cfg, After(cfg, s, pkt, now).byMac, mac, a, now, alone)
  {
    if Backs(s.byMac, mac, a) {
      OthersUntouched(cfg, s, pkt, now, mac);
      if alone {
        ReceiveKeepsAlone(cfg, s, pkt, now, mac);
      }
    } else {
      ReceiveKeepsShield(cfg, s, pkt, now, a);
    }
  }

  lemma ReceiveKeepsMemoryOf(cfg: DhcpConfig, s: State, pkt: DhcpPacket, mac: Mac, alone: bool)
    requires s.phase.Waiting? && Storable(s.store.byMac) && mac in s.acks && AckInMemory(cfg, s, mac, alone)
    requires mac in DoReceive(cfg, s, pkt).acks
    ensures AckInMemory(cfg, DoReceive(cfg, s, pkt), mac, alone)
  {
    if mac != pkt.chaddr {
      if IsDynamic(cfg, mac) && InForce(s, mac) {
        ReceiveKeepsHolds(cfg, s.store, pkt, s.clock, mac, s.acks[mac], alone);
      }
    } else if IsDynamic(cfg, mac) && Grants(cfg, s.store, pkt, s.clock) {
      GrantedLease(cfg, s.store, pkt, s.clock);
    } else {
      assert After(cfg, s.store, pkt, s.clock).byMac == s.store.byMac;
    }
  }

  /** A packet keeps every other client's address held, and its own unless it gives the lease up or gets a new one. */
  lemma ReceiveKeepsAck(cfg: DhcpConfig, s: State, pkt: DhcpPacket, mac: Mac, alone: bool)
    requires s.phase.Waiting? && Storable(s.store.byMac) && mac in s.acks && AckSound(cfg, s, mac)
    requires mac in DoReceive(cfg, s, pkt).acks
    ensures AckSound(cfg, DoReceive(cfg, s, pkt), mac)
    ensures AckInMemory(cfg, s, mac, alone) ==> AckInMemory(cfg, DoReceive(cfg, s, pkt), mac, alone)
  {
    var s' := DoReceive(cfg, s, pkt);
    assert AckOnDisk(cfg, s', mac, false) == AckOnDisk(cfg, s, mac, false);
    if AckInMemory(cfg, s, mac, false) {
      ReceiveKeepsMemoryOf(cfg, s, pkt, mac, false);
    }
    if AckInMemory(cfg, s, mac, alone) {
      ReceiveKeepsMemoryOf(cfg, s, pkt, mac, alone);
    }
  }

  lemma SaveKeepsMemoryOf(cfg: DhcpConfig, s: State, order: seq<Lease>, ok: bool, mac: Mac, alone: bool)
    requires GrantInMemory(cfg, s) && mac in s.acks && AckSound(cfg, s, mac) && AckInMemory(cfg, s, mac, alone)
    requires s.phase.Committing? || s.phase.Rewriting?
    requires mac in DoSave(s, order, ok).acks
    ensures AckInMemory(cfg, DoSave(s, order, ok), mac, alone)
  {
  }

  lemma SaveKeepsAck(cfg: DhcpConfig, s: State, order: seq<Lease>, ok: bool, mac: Mac, alone: bool)
    requires Sound(cfg, s) && (s.phase.Committing? || s.phase.Rewriting?) && Enumerates(order, s.store.byMac)
    requires mac in DoSave(s, order, ok).acks
    ensures AckSound(cfg, DoSave(s, order, ok), mac)
    ensures AckInMemory(cfg, s, mac, alone) ==> AckInMemory(cfg, DoSave(s, order, ok), mac, alone)
  {
    var s' := DoSave(s, order, ok);
    if AckInMemory(cfg, s, mac, alone) {
      SaveKeepsMemoryOf(cfg, s, order, ok, mac, alone);
    }
    if AckInMemory(cfg, s, mac, false) {
      SaveKeepsMemoryOf(cfg, s, order, ok, mac, false);
    } else if ok {
      SavedText(order, s.store.byMac);
      if AckOnDisk(cfg, s', mac, false) {
        UnNormalHolds(cfg, s.store.byMac, mac, s.acks[mac], s.clock);
      }
    }
  }

  lemma UnNormalHolds(cfg: DhcpConfig, m: LeaseMap, mac: Mac, a: AckRecord, now: nat)
    ensures Holds(cfg, NormalMap(m), mac, a, now, false) ==> Holds(cfg, m, mac, a, now, false)
  {
  }

  /** An ACK just sent is in memory; the others are as before. */
  lemma SendKeepsAck(cfg: DhcpConfig, s: State, mac: Mac, alone: bool)
    requires Sound(cfg, s) && s.phase.Sending? && mac in DoSend(cfg, s).acks
    ensures AckSound(cfg, DoSend(cfg, s), mac)
    ensures (mac in s.acks ==> AckInMemory(cfg, s, mac, alone)) ==> AckInMemory(cfg, DoSend(cfg, s), mac, alone)
  {
    assert mac in s.acks ==> AckSound(cfg, s, mac);
  }

  lemma SweepKeepsAck(cfg: DhcpConfig, s: State, mac: Mac, alone: bool)
    requires Sound(cfg, s) && s.phase.Sweeping? && mac in s.acks
    ensures AckSound(cfg, DoSweep(s), mac)
    ensures AckInMemory(cfg, s, mac, alone) ==> AckInMemory(cfg, DoSweep(s), mac, alone)
  {
    var m, a, now := s.store.byMac, s.acks[mac], s.clock;
    assert AckSound(cfg, s, mac);
    if InForce(s, mac) && Holds(cfg, m, mac, a, now, alone) {
      LiveHolds(cfg, m, mac, a, now, alone);
    }
    if InForce(s, mac) && Holds(cfg, m, mac, a, now, false) {
      LiveHolds(cfg, m, mac, a, now, false);
    }
  }

  /** The one step that turns what is on disk into what is in memory. */
  lemma BootKeepsAck(cfg: DhcpConfig, s: State, mac: Mac, alone: bool)
    requires Sound(cfg, s) && s.phase.Down? && mac in s.acks
    ensures AckSound(cfg, DoBoot(s), mac)
    ensures AckOnDisk(cfg, s, mac, alone) ==> AckInMemory(cfg, DoBoot(s), mac, alone)
  {
    var m, a, now := LoadText(s.file), s.acks[mac], s.clock;
    assert AckSound(cfg, s, mac);
    if InForce(s, mac) && Holds(cfg, m, mac, a, now, alone) {
      LiveHolds(cfg, m, mac, a, now, alone);
    }
    if InForce(s, mac) && Holds(cfg, m, mac, a, now, false) {
      LiveHolds(cfg, m, mac, a, now, false);
    }
  }

  /** Time passing, a crash, or a loop turn without a packet. */
  predicate Idles(s: State, s': State) {
    && s'.acks == s.acks && s'.file == s.file && s.clock <= s'.clock
    && (s'.store == s.store || (s'.phase.Down? && s'.store == EMPTY_STORE))
    && (s'.phase.Down? || s'.phase == s.phase || (s.phase.Waiting? && s'.phase.Sweeping?))
  }

  lemma IdleKeepsAck(cfg: DhcpConfig, s: State, s': State, mac: Mac, alone: bool)
    requires Sound(cfg, s) && Idles(s, s') && mac in s.acks
    ensures AckSound(cfg, s', mac)
    ensures AckInMemory(cfg, s, mac, alone) ==> AckInMemory(cfg, s', mac, alone)
  {
    assert AckSound(cfg, s, mac);
  }

  /** A step keeps the client's address held in memory, provided a boot finds it held on disk. */
  lemma StepKeepsAck(cfg: DhcpConfig, s: State, e: Event, mac: Mac, alone: bool)
    requires Sound(cfg, s) && Forward(s, e) && mac in Apply(cfg, s, e).acks
    ensures AckSound(cfg, Apply(cfg, s, e), mac)
    ensures (mac in s.acks ==> AckInMemory(cfg, s, mac, alone))
            && (e.Boot? && s.phase.Down? && mac in s.acks ==> AckOnDisk(cfg, s, mac, alone))
            ==> AckInMemory(cfg, Apply(cfg, s, e), mac, alone)
  {
    match e
    case Boot => if s.phase.Down? { BootKeepsAck(cfg, s, mac, alone); }
    case Receive(data) =>
      if s.phase.Waiting? && ParsePacket(data).Ok? {
        ReceiveKeepsAck(cfg, s, ParsePacket(data).value, mac, alone);
      } else {
        IdleKeepsAck(cfg, s, Apply(cfg, s, e), mac, alone);
      }
    case Save(order, ok) =>
      if (s.phase.Committing? || s.phase.Rewriting?) && Enumerates(order, s.store.byMac) {
        SaveKeepsAck(cfg, s, order, ok, mac, alone);
      }
    case Send => if s.phase.Sending? { SendKeepsAck(cfg, s, mac, alone); }
    case Sweep => if s.phase.Sweeping? { SweepKeepsAck(cfg, s, mac, alone); }
    case _ => IdleKeepsAck(cfg, s, Apply(cfg, s, e), mac, alone);
  }

  /** And keeps a decided grant in memory until it is sent. */
  lemma StepKeepsGrant(cfg: DhcpConfig, s: State, e: Event)
    requires Sound(cfg, s) && Forward(s, e)
    ensures Storable(Apply(cfg, s, e).store.byMac) && GrantInMemory(cfg, Apply(cfg, s, e))
  {
    match e
    case Boot => LoadedIsStorable(s.file);
    case Receive(data) =>
      if s.phase.Waiting? && ParsePacket(data).Ok? {
        DecideKeepsStorable(cfg, s.store, ParsePacket(data).value, s.clock);
        ReceiveKeepsGrant(cfg, s, ParsePacket(data).value);
      }
    case _ =>
  }

  // ---- All clients through one step ----

  lemma StepKeepsSound(cfg: DhcpConfig, s: State, e: Event)
    requires Sound(cfg, s) && Forward(s, e)
    ensures Sound(cfg, Apply(cfg, s, e))
  {
    StepKeepsGrant(cfg, s, e);
    forall mac | mac in Apply(cfg, s, e).acks
      ensures AckSound(cfg, Apply(cfg, s, e), mac)
    {
      StepKeepsAck(cfg, s, e, mac, false);
    }
  }

  /** A step that may go wrong in any way but two: the clock does not go back, and a boot finds these clients' ACKs. */
  ghost predicate Backed(cfg: DhcpConfig, s: State, e: Event, who: iset<Mac>, alone: bool) {
    Forward(s, e) && (e.Boot? && s.phase.Down? ==> AcksOnDisk(cfg, s, who, alone))
  }

  lemma StepKeepsMemory(cfg: DhcpConfig, s: State, e: Event, who: iset<Mac>, alone: bool)
    requires MemorySafe(cfg, s, who, alone) && Backed(cfg, s, e, who, alone)
    ensures MemorySafe(cfg, Apply(cfg, s, e), who, alone)
  {
    StepKeepsSound(cfg, s, e);
    forall mac | mac in Apply(cfg, s, e).acks && mac in who
      ensures AckInMemory(cfg, Apply(cfg, s, e), mac, alone)
    {
      StepKeepsAck(cfg, s, e, mac, alone);
    }
  }

  /** What the file holds memory holds, so a file that holds everything makes memory safe. */
  lemma DiskMakesMemory(cfg: DhcpConfig, s: State)
    requires Sound(cfg, s) && DiskSafe(cfg, s, false)
    ensures Safe(cfg, s, false)
  {
    forall mac | mac in s.acks
      ensures AckInMemory(cfg, s, mac, false)
    {
      assert AckSound(cfg, s, mac) && AckOnDisk(cfg, s, mac, false);
    }
  }

  // ---- Disk: every save succeeds ----

  lemma ReceiveKeepsDisk(cfg: DhcpConfig, s: State, pkt: DhcpPacket, alone: bool)
    requires DiskSafe(cfg, s, alone) && s.phase.Waiting?
    ensures DiskSafe(cfg, DoReceive(cfg, s, pkt), alone)
  {
    var s' := DoReceive(cfg, s, pkt);
    if s'.phase.Sending? && s'.phase.job.answer.Granting? && IsDynamic(cfg, pkt.chaddr) {
      GrantedLease(cfg, s.store, pkt, s.clock);
      assert false;
    }
    forall mac | mac in s'.acks
      ensures AckOnDisk(cfg, s', mac, alone)
    {
      assert AckOnDisk(cfg, s, mac, alone);
    }
  }

  lemma SaveKeepsDisk(cfg: DhcpConfig, s: State, order: seq<Lease>, alone: bool)
    requires Safe(cfg, s, alone) && (s.phase.Committing? || s.phase.Rewriting?)
    requires Enumerates(order, s.store.byMac)
    ensures DiskSafe(cfg, DoSave(s, order, true), alone)
  {
    var s' := DoSave(s, order, true);
    var m := s.store.byMac;
    SavedText(order, m);
    if s.phase.Committing? && s.phase.job.answer.Granting? {
      NormalHolds(cfg, m, s.phase.job.pkt.chaddr, AckOf(cfg, s.phase.job), s.clock, true);
    }
    forall mac | mac in s'.acks
      ensures AckOnDisk(cfg, s', mac, alone)
    {
      assert AckInMemory(cfg, s, mac, alone);
      SaveKeepsMemoryOf(cfg, s, order, true, mac, alone);
      if IsDynamic(cfg, mac) && InForce(s, mac) {
        NormalHolds(cfg, m, mac, s.acks[mac], s.clock, alone);
      }
    }
  }

  lemma SendKeepsDisk(cfg: DhcpConfig, s: State, alone: bool)
    requires DiskSafe(cfg, s, alone) && s.phase.Sending?
    ensures DiskSafe(cfg, DoSend(cfg, s), alone)
  {
    var s' := DoSend(cfg, s);
    forall mac | mac in s'.acks
      ensures AckOnDisk(cfg, s', mac, alone)
    {
      assert mac in s.acks ==> AckOnDisk(cfg, s, mac, alone);
    }
  }

  /** Steps that leave file and history alone, and do not start sending. */
  lemma IdleKeepsDisk(cfg: DhcpConfig, s: State, s': State, alone: bool)
    requires DiskSafe(cfg, s, alone) && s'.acks == s.acks && s'.file == s.file && s.clock <= s'.clock
    requires s'.phase == s.phase || !s'.phase.Sending?
    ensures DiskSafe(cfg, s', alone)
  {
    forall mac | mac in s'.acks
      ensures AckOnDisk(cfg, s', mac, alone)
    {
      assert AckOnDisk(cfg, s, mac, alone);
    }
  }

  lemma StepKeepsDisk(cfg: DhcpConfig, s: State, e: Event, alone: bool)
    requires Safe(cfg, s, alone) && Benign(s, e)
    ensures DiskSafe(cfg, Apply(cfg, s, e), alone)
  {
    match e
    case Receive(data) =>
      if s.phase.Waiting? && ParsePacket(data).Ok? {
        ReceiveKeepsDisk(cfg, s, ParsePacket(data).value, alone);
      } else {
        IdleKeepsDisk(cfg, s, Apply(cfg, s, e), alone);
      }
    case Save(order, ok) =>
      if (s.phase.Committing? || s.phase.Rewriting?) && Enumerates(order, s.store.byMac) {
        SaveKeepsDisk(cfg, s, order, alone);
      }
    case Send => if s.phase.Sending? { SendKeepsDisk(cfg, s, alone); }
    case _ => IdleKeepsDisk(cfg, s, Apply(cfg, s, e), alone);
  }

  // ---- Runs ----

  lemma StepKeepsSafe(cfg: DhcpConfig, s: State, e: Event, alone: bool)
    requires Safe(cfg, s, alone) && Benign(s, e)
    ensures Safe(cfg, Apply(cfg, s, e), alone)
  {
    StepKeepsMemory(cfg, s, e, EVERYONE, alone);
    StepKeepsDisk(cfg, s, e, alone);
  }

  lemma {:induction false} RunKeepsSafe(cfg: DhcpConfig, s: State, es: seq<Event>, alone: bool)
    requires Safe(cfg, s, alone) && BenignRun(cfg, s, es)
    ensures Safe(cfg, Exec(cfg, s, es), alone)
    decreases |es|
  {
    if es != [] {
      StepKeepsSafe(cfg, s, es[0], alone);
      RunKeepsSafe(cfg, Apply(cfg, s, es[0]), es[1..], alone);
    }
  }

  lemma {:induction false} RunKeepsSound(cfg: DhcpConfig, s: State, es: seq<Event>)
    requires Sound(cfg, s) && ForwardClock(cfg, s, es)
    ensures Sound(cfg, Exec(cfg, s, es))
    decreases |es|
  {
    if es != [] {
      StepKeepsSound(cfg, s, es[0]);
      RunKeepsSound(cfg, Apply(cfg, s, es[0]), es[1..]);
    }
  }

  /** The clock goes forward, and every boot finds the addresses of these clients' ACKs held on disk. */
  ghost predicate BackedRun(cfg: DhcpConfig, s: State, es: seq<Event>, who: iset<Mac>, alone: bool)
    decreases |es|
  {
    es != [] ==> Backed(cfg, s, es[0], who, alone) && BackedRun(cfg, Apply(cfg, s, es[0]), es[1..], who, alone)
  }

  lemma {:induction false} RunKeepsMemory(cfg: DhcpConfig, s: State, es: seq<Event>, who: iset<Mac>, alone: bool)
    requires MemorySafe(cfg, s, who, alone) && BackedRun(cfg, s, es, who, alone)
    ensures MemorySafe(cfg, Exec(cfg, s, es), who, alone)
    decreases |es|
  {
    if es != [] {
      StepKeepsMemory(cfg, s, es[0], who, alone);
      RunKeepsMemory(cfg, Apply(cfg, s, es[0]), es[1..], who, alone);
    }
  }

  /** A daemon that never ran is safe, whatever is in its lease file. */
  lemma InitialIsSafe(cfg: DhcpConfig, file: string, clock: Instant)
    ensures Safe(cfg, Initial(file, clock), true) && Safe(cfg, Initial(file, clock), false)
    ensures Exclusive(Initial(file, clock))
  {
  }

  // ---- The claims ----

  /** No two of these clients hold unexpired ACKs for one address. */
  ghost predicate ExclusiveAmong(s: State, who: iset<Mac>) {
    forall a, b :: a in who && b in who && a != b && InForce(s, a) && InForce(s, b) ==> s.acks[a].ip != s.acks[b].ip
  }

  ghost predicate Exclusive(s: State) {
    ExclusiveAmong(s, EVERYONE)
  }

  /**
   Whatever happens, with crashes at any point and from any lease file, two clients never hold unexpired ACKs for one
   address, and the lease behind every such ACK to a client without a static binding is on disk.
   */
  lemma CrashSafeExclusivity(cfg: DhcpConfig, file: string, clock: Instant, es: seq<Event>)
    requires Valid(cfg) && BenignRun(cfg, Initial(file, clock), es)
    ensures var s := Exec(cfg, Initial(file, clock), es);
            && Exclusive(s)
            && (forall a :: InForce(s, a) && IsDynamic(cfg, a) ==> Backs(LoadText(s.file), a, s.acks[a]))
  {
    InitialIsSafe(cfg, file, clock);
    RunKeepsSafe(cfg, Initial(file, clock), es, true);
    var s := Exec(cfg, Initial(file, clock), es);
    SafeMeansExclusive(cfg, s);
    forall a | InForce(s, a) && IsDynamic(cfg, a)
      ensures Backs(LoadText(s.file), a, s.acks[a])
    {
      assert AckOnDisk(cfg, s, a, true);
    }
  }

  /** An address proper to one client is proper to another only if both are dynamic. */
  lemma ProperApart(cfg: DhcpConfig, a: Mac, b: Mac, ip: u32)
    requires Valid(cfg) && Proper(cfg, a, ip) && Proper(cfg, b, ip) && a != b
    ensures IsDynamic(cfg, a) && IsDynamic(cfg, b)
  {
    assert forall st :: st in cfg.statics ==> st.ip in cfg.StaticIps();
    if !IsDynamic(cfg, a) && !IsDynamic(cfg, b) {
      StaticForIsInjective(cfg, a, b);
    }
  }

  lemma SafeMeansExclusive(cfg: DhcpConfig, s: State)
    requires Valid(cfg) && Safe(cfg, s, true)
    ensures Exclusive(s)
  {
    forall a, b | InForce(s, a) && InForce(s, b) && a != b
      ensures s.acks[a].ip != s.acks[b].ip
    {
      assert AckSound(cfg, s, a) && AckSound(cfg, s, b);
      assert AckOnDisk(cfg, s, a, true) && AckOnDisk(cfg, s, b, true);
      if s.acks[a].ip == s.acks[b].ip {
        ProperApart(cfg, a, b, s.acks[a].ip);
      }
    }
  }

  /** Some client other than this dynamic one has a live lease on an address held for someone else. */
  lemma HeldIsTaken(cfg: DhcpConfig, m: LeaseMap, mac: Mac, a: AckRecord, now: nat, other: Mac) returns (k: Mac)
    requires Holds(cfg, m, mac, a, now, false) && a.expiresAt > now && mac != other && IsDynamic(cfg, other)
    ensures k in m && k != other && m[k].ip == a.ip && m[k].expiresAt > now
  {
    if Backs(m, mac, a) {
      k := mac;
    } else {
      k :| k in m && !IsDynamic(cfg, k) && m[k].ip == a.ip && m[k].expiresAt >= a.expiresAt;
    }
  }

  /** The address about to be acknowledged is in force for no client whose ACKs memory holds. */
  lemma SendIsUnshared(cfg: DhcpConfig, s: State, a: Mac)
    requires Valid(cfg) && Sound(cfg, s) && s.phase.Sending? && s.phase.job.answer.Granting?
    requires InForce(s, a) && AckInMemory(cfg, s, a, false) && a != s.phase.job.pkt.chaddr
    ensures s.acks[a].ip != s.phase.job.answer.ip
  {
    var mac, ip := s.phase.job.pkt.chaddr, s.phase.job.answer.ip;
    assert AckSound(cfg, s, a);
    if s.acks[a].ip == ip {
      ProperApart(cfg, a, mac, ip);
      var k := HeldIsTaken(cfg, s.store.byMac, a, s.acks[a], s.clock, mac);
      assert false;
    }
  }

  lemma SendKeepsExclusive(cfg: DhcpConfig, s: State, who: iset<Mac>)
    requires Valid(cfg) && MemorySafe(cfg, s, who, false) && s.phase.Sending? && ExclusiveAmong(s, who)
    ensures ExclusiveAmong(DoSend(cfg, s), who)
  {
    if s.phase.job.answer.Granting? {
      var mac, ack := s.phase.job.pkt.chaddr, AckOf(cfg, s.phase.job);
      forall a | a in who && InForce(s, a) && a != mac
        ensures s.acks[a].ip != ack.ip
      {
        SendIsUnshared(cfg, s, a);
      }
      AckKeepsExclusive(s, DoSend(cfg, s), mac, ack, who);
    }
  }

  lemma AckKeepsExclusive(s: State, s': State, mac: Mac, ack: AckRecord, who: iset<Mac>)
    requires ExclusiveAmong(s, who) && s'.acks == s.acks[mac := ack] && s'.clock == s.clock
    requires forall a :: a in who && InForce(s, a) && a != mac ==> s.acks[a].ip != ack.ip
    ensures ExclusiveAmong(s', who)
  {
    assert forall a :: a != mac ==> (InForce(s', a) <==> InForce(s, a)) && (a in s.acks ==> s'.acks[a] == s.acks[a]);
  }

  /** Only sending an ACK adds one; every other step keeps, drops or ages them. */
  lemma StepShrinksAcks(cfg: DhcpConfig, s: State, e: Event)
    requires Forward(s, e) && !(e.Send? && s.phase.Sending?)
    ensures var s' := Apply(cfg, s, e);
            s.clock <= s'.clock && forall mac :: mac in s'.acks ==> mac in s.acks && s'.acks[mac] == s.acks[mac]
  {
  }

  lemma StepKeepsExclusive(cfg: DhcpConfig, s: State, e: Event, who: iset<Mac>)
    requires Valid(cfg) && MemorySafe(cfg, s, who, false) && ExclusiveAmong(s, who) && Forward(s, e)
    ensures ExclusiveAmong(Apply(cfg, s, e), who)
  {
    if e.Send? && s.phase.Sending? {
      SendKeepsExclusive(cfg, s, who);
    } else {
      StepShrinksAcks(cfg, s, e);
      var s' := Apply(cfg, s, e);
      assert forall mac :: InForce(s', mac) ==> InForce(s, mac) && s'.acks[mac] == s.acks[mac];
    }
  }

  lemma {:induction false} RunKeepsExclusive(cfg: DhcpConfig, s: State, es: seq<Event>, who: iset<Mac>)
    requires Valid(cfg) && MemorySafe(cfg, s, who, false) && ExclusiveAmong(s, who)
    requires BackedRun(cfg, s, es, who, false)
    ensures MemorySafe(cfg, Exec(cfg, s, es), who, false) && ExclusiveAmong(Exec(cfg, s, es), who)
    decreases |es|
  {
    if es != [] {
      StepKeepsMemory(cfg, s, es[0], who, false);
      StepKeepsExclusive(cfg, s, es[0], who);
      RunKeepsExclusive(cfg, Apply(cfg, s, es[0]), es[1..], who);
    }
  }

  /**
   Saves may fail as long as no restart needs them: no two of any clients (a pair, or all) hold unexpired ACKs for one
   address in any run whose clock goes forward and whose every boot finds on disk what holds the addresses of these
   clients' ACKs, whatever it lost of others'.
   */
  lemma ExclusivityWhileBacked(cfg: DhcpConfig, file: string, clock: Instant, es: seq<Event>, who: iset<Mac>)
    requires Valid(cfg) && BackedRun(cfg, Initial(file, clock), es, who, false)
    ensures ExclusiveAmong(Exec(cfg, Initial(file, clock), es), who)
  {
    InitialIsSafe(cfg, file, clock);
    RunKeepsExclusive(cfg, Initial(file, clock), es, who);
  }

  /** Runs whose saves succeed are such runs. */
  lemma {:induction false} BenignIsBacked(cfg: DhcpConfig, s: State, es: seq<Event>, who: iset<Mac>, alone: bool)
    requires Safe(cfg, s, alone) && BenignRun(cfg, s, es)
    ensures BackedRun(cfg, s, es, who, alone)
    decreases |es|
  {
    if es != [] {
      StepKeepsSafe(cfg, s, es[0], alone);
      BenignIsBacked(cfg, Apply(cfg, s, es[0]), es[1..], who, alone);
    }
  }

  /** So are runs of a process that is never killed, whatever becomes of its saves. */
  lemma {:induction false} NoCrashIsBacked(cfg: DhcpConfig, s: State, es: seq<Event>, who: iset<Mac>, alone: bool)
    requires ForwardClock(cfg, s, es) && NoCrash(es) && (s.phase.Down? ==> s.acks == map[])
    ensures BackedRun(cfg, s, es, who, alone)
    decreases |es|
  {
    if es != [] {
      var s' := Apply(cfg, s, es[0]);
      assert !es[0].Crash?;
      assert s'.phase.Down? ==> s'.acks == map[];
      NoCrashIsBacked(cfg, s', es[1..], who, alone);
    }
  }

  /** A failed save alone is harmless: without a crash, exclusivity holds whatever becomes of the saves. */
  lemma ExclusivityWithoutCrashes(cfg: DhcpConfig, file: string, clock: Instant, es: seq<Event>)
    requires Valid(cfg) && ForwardClock(cfg, Initial(file, clock), es) && NoCrash(es)
    ensures Exclusive(Exec(cfg, Initial(file, clock), es))
  {
    NoCrashIsBacked(cfg, Initial(file, clock), es, EVERYONE, false);
    ExclusivityWhileBacked(cfg, file, clock, es, EVERYONE);
  }

  /** Where no two clients share an address on disk to begin with, an own lease on disk is there alone. */
  lemma {:induction false} ConflictFreeIsAlone(cfg: DhcpConfig, s: State, es: seq<Event>, who: iset<Mac>)
    requires ConflictFree(s) && ForwardClock(cfg, s, es) && FindsOwn(cfg, s, es, who)
    ensures BackedRun(cfg, s, es, who, true)
    decreases |es|
  {
    if es != [] {
      StepKeepsConflictFree(cfg, s, es[0]);
      ConflictFreeIsAlone(cfg, Apply(cfg, s, es[0]), es[1..], who);
    }
  }

  /** Every boot finds these clients' own leases on disk. */
  ghost predicate FindsOwn(cfg: DhcpConfig, s: State, es: seq<Event>, who: iset<Mac>)
    decreases |es|
  {
    es != [] ==>
      && (es[0].Boot? && s.phase.Down? ==>
            forall mac :: mac in who && IsDynamic(cfg, mac) && InForce(s, mac) ==>
              Backs(LoadText(s.file), mac, s.acks[mac]))
      && FindsOwn(cfg, Apply(cfg, s, es[0]), es[1..], who)
  }

  // ---- What is offered and granted meanwhile ----

  /** The address of an offer or a grant. */
  predicate Gives(a: Answer, ip: u32) {
    (a.Offering? || a.Granting?) && a.ip == ip
  }

  lemma AnswerIsProper(cfg: DhcpConfig, s: Store, pkt: DhcpPacket, now: Instant, ip: u32)
    requires Gives(AnswerTo(cfg, s, pkt, now), ip)
    ensures Proper(cfg, pkt.chaddr, ip)
    ensures IsDynamic(cfg, pkt.chaddr) ==> !s.TakenByOther(ip, pkt.chaddr, now)
  {
    GivenIsAssigned(cfg, s, pkt, now, ip);
    AssignIsProper(cfg, s, pkt.chaddr, now, ip);
  }

  lemma GivenIsAssigned(cfg: DhcpConfig, s: Store, pkt: DhcpPacket, now: Instant, ip: u32)
    requires Gives(AnswerTo(cfg, s, pkt, now), ip)
    ensures Assign(cfg, s, pkt.chaddr, now) == Some(ip)
  {
  }

  lemma AssignIsProper(cfg: DhcpConfig, s: Store, mac: Mac, now: nat, ip: u32)
    requires Assign(cfg, s, mac, now) == Some(ip)
    ensures Proper(cfg, mac, ip)
    ensures IsDynamic(cfg, mac) ==> !s.TakenByOther(ip, mac, now)
  {
    if IsDynamic(cfg, mac) {
      AssignMeaning(cfg, s, mac, now);
    }
  }

  /** No answer decided gives a client an address for which another client has an ACK in force. */
  lemma AnswerAvoidsAcks(cfg: DhcpConfig, s: State, pkt: DhcpPacket, mac: Mac)
    requires Valid(cfg) && Sound(cfg, s) && s.phase.Waiting?
    requires InForce(s, mac) && AckInMemory(cfg, s, mac, false) && mac != pkt.chaddr
    ensures !Gives(AnswerTo(cfg, s.store, pkt, s.clock), s.acks[mac].ip)
  {
    var ip := s.acks[mac].ip;
    assert AckSound(cfg, s, mac);
    if Gives(AnswerTo(cfg, s.store, pkt, s.clock), ip) {
      AnswerIsProper(cfg, s.store, pkt, s.clock, ip);
      ProperApart(cfg, mac, pkt.chaddr, ip);
      var k := HeldIsTaken(cfg, s.store.byMac, mac, s.acks[mac], s.clock, pkt.chaddr);
      assert false;
    }
  }

  /** If every boot finds this client's address held, no OFFER or ACK ever names it to another, whatever others lost. */
  lemma AnswersAvoidAcksOverRuns(cfg: DhcpConfig, file: string, clock: Instant, es: seq<Event>,
                                 pkt: DhcpPacket, mac: Mac)
    requires Valid(cfg) && BackedRun(cfg, Initial(file, clock), es, iset{mac}, false)
    requires Exec(cfg, Initial(file, clock), es).phase.Waiting?
    requires InForce(Exec(cfg, Initial(file, clock), es), mac) && mac != pkt.chaddr
    ensures var s := Exec(cfg, Initial(file, clock), es);
            && !Gives(AnswerTo(cfg, s.store, pkt, s.clock), s.acks[mac].ip)
            && var reply := Rendered(cfg, pkt, AnswerTo(cfg, s.store, pkt, s.clock));
               reply.Some? ==> |reply.value.0| >= MIN_LEN && ReadReply(reply.value.0).yiaddr != s.acks[mac].ip
  {
    InitialIsSafe(cfg, file, clock);
    RunKeepsMemory(cfg, Initial(file, clock), es, iset{mac}, false);
    var s := Exec(cfg, Initial(file, clock), es);
    AnswerAvoidsAcks(cfg, s, pkt, mac);
    AckIsNotZero(cfg, s, mac);
    RenderedReads(cfg, pkt, AnswerTo(cfg, s.store, pkt, s.clock));
  }

  /** A NAK carries the zero address, which no ACK ever names. */
  lemma AckIsNotZero(cfg: DhcpConfig, s: State, mac: Mac)
    requires Valid(cfg) && Sound(cfg, s) && mac in s.acks
    ensures s.acks[mac].ip != 0
  {
    var ip := s.acks[mac].ip;
    assert AckSound(cfg, s, mac);
    if IsDynamic(cfg, mac) {
      PoolIsHostRange(cfg, ip);
    } else {
      StaticIsHost(cfg, mac);
    }
  }

  // ---- Renewal ----

  /** A REQUEST by which a client asks to keep its address, or states no preference, and names no other server. */
  predicate AsksToKeep(cfg: DhcpConfig, pkt: DhcpPacket, ip: u32) {
    && IsType(pkt, Request) && IsDynamic(cfg, pkt.chaddr)
    && (Requested(pkt) == 0 || Requested(pkt) == ip)
    && (pkt.options.ServerId().Some? ==> pkt.options.ServerId().value == cfg.serverIp)
  }

  predicate Renews(cfg: DhcpConfig, s: State, pkt: DhcpPacket) {
    s.phase.Waiting? && InForce(s, pkt.chaddr) && AsksToKeep(cfg, pkt, s.acks[pkt.chaddr].ip)
  }

  /** The held lease is what the decision sees, so the same address is granted unless it is quarantined. */
  lemma RenewalIsStable(cfg: DhcpConfig, s: State, pkt: DhcpPacket)
    requires Valid(cfg) && Sound(cfg, s) && Renews(cfg, s, pkt) && AckInMemory(cfg, s, pkt.chaddr, true)
    ensures var ip := s.acks[pkt.chaddr].ip;
            && (AnswerTo(cfg, s.store, pkt, s.clock) == Granting(ip) <==> !s.store.IsQuarantined(ip, s.clock))
            && (DoReceive(cfg, s, pkt).phase == Committing(Job(pkt, Granting(ip), s.clock)) <==>
                  !s.store.IsQuarantined(ip, s.clock))
  {
    var mac := pkt.chaddr;
    assert AckSound(cfg, s, mac);
    assert !s.store.TakenByOther(s.acks[mac].ip, mac, s.clock);
    RenewalGranted(cfg, s.store, pkt, s.clock);
    if AnswerTo(cfg, s.store, pkt, s.clock).Granting? {
      GrantedLease(cfg, s.store, pkt, s.clock);
    }
  }

  /**
   After any run whose boots find this client's lease on disk alone on its address, whatever other clients, sweeps,
   failed saves and crashes did, the client whose ACK is in force and asks to keep its address is answered with an ACK
   for it exactly when the address is not quarantined.
   */
  lemma RenewalOverRuns(cfg: DhcpConfig, file: string, clock: Instant, es: seq<Event>, data: seq<byte>, pkt: DhcpPacket)
    requires Valid(cfg) && BackedRun(cfg, Initial(file, clock), es, iset{pkt.chaddr}, true)
    requires ParsePacket(data) == Ok(pkt) && Renews(cfg, Exec(cfg, Initial(file, clock), es), pkt)
    ensures var s := Exec(cfg, Initial(file, clock), es);
            var s', ip := Exec(cfg, Initial(file, clock), es + [Receive(data)]), s.acks[pkt.chaddr].ip;
            && (s'.phase == Committing(Job(pkt, Granting(ip), s.clock)) <==> !s.store.IsQuarantined(ip, s.clock))
            && Rendered(cfg, pkt, Granting(ip)).Some?
            && ReadReply(Rendered(cfg, pkt, Granting(ip)).value.0)
               == Reading(Some(MessageType.Ack), ip, Some(Octets(cfg.leaseTime)))
  {
    InitialIsSafe(cfg, file, clock);
    RunKeepsMemory(cfg, Initial(file, clock), es, iset{pkt.chaddr}, true);
    var s := Exec(cfg, Initial(file, clock), es);
    RenewalIsStable(cfg, s, pkt);
    ReceiveParsed(cfg, s, data, pkt);
    ExecLast(cfg, Initial(file, clock), es, Receive(data));
    GrantReads(cfg, pkt, s.acks[pkt.chaddr].ip);
  }

  lemma GrantReads(cfg: DhcpConfig, pkt: DhcpPacket, ip: u32)
    requires |cfg.dns| <= 63
    ensures var reply := Rendered(cfg, pkt, Granting(ip));
            && reply.Some? && |reply.value.0| >= MIN_LEN
            && ReadReply(reply.value.0) == Reading(Some(MessageType.Ack), ip, Some(Octets(cfg.leaseTime)))
  {
    RenderedReads(cfg, pkt, Granting(ip));
  }
}
