/** The exact condition under which exclusivity lasts: the file holds every lease a restart would need. */
module Necessity {
  import opened Base
  import opened Config
  import opened Message
  import opened DhcpOptions
  import opened Packet
  import opened LeaseFile
  import opened LeaseStorage
  import opened Allocator
  import opened Protocol
  import opened ProtocolLaws
  import opened System
  import opened Exclusivity
  import opened Recovery

  const LAST_INSTANT: int := TWO_64 - TWO_32

  // ---- Reaching states ----

  /** A run with a forward clock and successful saves goes from one state to the other. */
  ghost predicate Leads(cfg: DhcpConfig, s: State, r: State) {
    exists es :: BenignRun(cfg, s, es) && Exec(cfg, s, es) == r
  }

  lemma LeadsNowhere(cfg: DhcpConfig, s: State)
    ensures Leads(cfg, s, s)
  {
    assert BenignRun(cfg, s, []) && Exec(cfg, s, []) == s;
  }

  lemma LeadsBy(cfg: DhcpConfig, s: State, r: State, e: Event)
    requires Leads(cfg, s, r) && Benign(r, e)
    ensures Leads(cfg, s, Apply(cfg, r, e))
  {
    var es :| BenignRun(cfg, s, es) && Exec(cfg, s, es) == r;
    ExecLast(cfg, s, es, e);
    ExecConcat(cfg, s, es, [e]);
    assert [e][1..] == [];
    assert BenignRun(cfg, s, es + [e]) && Exec(cfg, s, es + [e]) == Apply(cfg, r, e);
  }

  // ---- One packet, all the way round the loop ----

  /** The ACK records once the packet has been decided, saved and answered. */
  function AcksAfter(cfg: DhcpConfig, s: State, pkt: DhcpPacket): map<Mac, AckRecord> {
    var job := Job(pkt, AnswerTo(cfg, s.store, pkt, s.clock), s.clock);
    var kept := if IsType(pkt, Release) || IsType(pkt, Decline) then s.acks - {pkt.chaddr} else s.acks;
    var saved := if Saves(cfg, s.store, pkt, s.clock) then Superseded(kept, job) else kept;
    if job.answer.Granting? then saved[pkt.chaddr := AckOf(cfg, job)] else saved
  }

  /** Ready for a packet, the purge timer not due. */
  predicate Idle(s: State) {
    s.phase.Waiting? && Storable(s.store.byMac) && s.clock < s.nextPurge
  }

  /** The state after a packet, but for the file. */
  predicate Turned(cfg: DhcpConfig, s: State, pkt: DhcpPacket, r: State) {
    && Idle(r) && r.clock == s.clock && r.nextPurge == s.nextPurge
    && r.store == After(cfg, s.store, pkt, s.clock) && r.acks == AcksAfter(cfg, s, pkt)
  }

  /** The save a decision asks for, then the send. */
  lemma Answer(cfg: DhcpConfig, start: State, s: State, job: Job) returns (r: State)
    requires Leads(cfg, start, s) && Storable(s.store.byMac) && (s.phase == Committing(job) || s.phase == Sending(job))
    ensures Leads(cfg, start, r) && r.phase.Sweeping? && r.clock == s.clock && r.nextPurge == s.nextPurge
    ensures r.store == s.store
    ensures var saved := if s.phase.Committing? then Superseded(s.acks, job) else s.acks;
            r.acks == if job.answer.Granting? then saved[job.pkt.chaddr := AckOf(cfg, job)] else saved
  {
    var ready := s;
    if s.phase.Committing? {
      var order := OrderExists(s.store.byMac);
      ready := DoSave(s, order, true);
      assert Apply(cfg, s, Save(order, true)) == ready;
      LeadsBy(cfg, start, s, Save(order, true));
    }
    r := DoSend(cfg, ready);
    assert Apply(cfg, ready, Send) == r;
    LeadsBy(cfg, start, ready, Send);
  }

  lemma Turn(cfg: DhcpConfig, start: State, s: State, pkt: DhcpPacket) returns (r: State)
    requires Leads(cfg, start, s) && Idle(s) && AllEncodable(pkt.options.items)
    ensures Leads(cfg, start, r) && Turned(cfg, s, pkt, r)
  {
    ArrivesExactly(pkt);
    DecideKeepsStorable(cfg, s.store, pkt, s.clock);
    var decided := DoReceive(cfg, s, pkt);
    ReceiveParsed(cfg, s, PacketBytes(pkt), pkt);
    LeadsBy(cfg, start, s, Receive(PacketBytes(pkt)));
    var sent := Answer(cfg, start, decided, Job(pkt, AnswerTo(cfg, s.store, pkt, s.clock), s.clock));
    r := SweepNotDue(cfg, start, sent);
  }

  lemma SweepNotDue(cfg: DhcpConfig, start: State, s: State) returns (r: State)
    requires Leads(cfg, start, s) && s.phase.Sweeping? && s.clock < s.nextPurge
    ensures Leads(cfg, start, r) && r == s.(phase := Waiting)
  {
    r := s.(phase := Waiting);
    assert Apply(cfg, s, Sweep) == r;
    LeadsBy(cfg, start, s, Sweep);
  }

  // ---- The packets used ----

  function ReleaseOf(mac: Mac): DhcpPacket {
    DhcpPacket(0, 0, 0, 0, mac, Options([Item(OPT_MSG_TYPE, [7])]))
  }

  function DeclineOf(mac: Mac, ip: u32): DhcpPacket {
    DhcpPacket(0, 0, 0, 0, mac, Options([Item(OPT_MSG_TYPE, [4]), Item(OPT_REQUESTED_IP, Octets(ip))]))
  }

  lemma ReleaseIsRelease(mac: Mac)
    ensures IsType(ReleaseOf(mac), Release)
  {
    FindUnique(ReleaseOf(mac).options.items, 0);
  }

  lemma DeclineIsDecline(mac: Mac, ip: u32)
    ensures IsType(DeclineOf(mac, ip), Decline) && DeclineOf(mac, ip).options.RequestedIp() == Some(ip)
  {
    FindUnique(DeclineOf(mac, ip).options.items, 0);
    FindUnique(DeclineOf(mac, ip).options.items, 1);
  }

  // ---- Making an address free, then the first to be found ----

  /** The second state is the first with some leases gone and some addresses quarantined; `keep` is as it was. */
  predicate Reduced(s: State, r: State, keep: Mac) {
    && Idle(r) && r.clock == s.clock && r.nextPurge == s.nextPurge
    && (keep in s.acks ==> keep in r.acks && r.acks[keep] == s.acks[keep])
    && (forall k :: k in r.store.byMac ==> k in s.store.byMac && r.store.byMac[k] == s.store.byMac[k])
  }

  lemma ReleaseForgets(cfg: DhcpConfig, s: Store, pkt: DhcpPacket, now: Instant)
    requires IsType(pkt, Release) && IsDynamic(cfg, pkt.chaddr) && pkt.chaddr in s.byMac
    ensures AnswerTo(cfg, s, pkt, now) == Silent && After(cfg, s, pkt, now) == s.Remove(pkt.chaddr)
    ensures |After(cfg, s, pkt, now).byMac| < |s.byMac|
  {
    assert s.byMac.Keys == s.Remove(pkt.chaddr).byMac.Keys + {pkt.chaddr};
    assert |s.byMac| == |s.byMac.Keys|;
  }

  /** Every other client that can releases its lease. */
  lemma {:induction false} ReleaseOthers(cfg: DhcpConfig, start: State, s: State, keep: Mac) returns (r: State)
    requires Leads(cfg, start, s) && Idle(s)
    ensures Leads(cfg, start, r) && Reduced(s, r, keep) && r.store.declined == s.store.declined
    ensures forall k :: k in r.store.byMac ==> k == keep || !IsDynamic(cfg, k)
    decreases |s.store.byMac|
  {
    r := s;
    if k :| k in s.store.byMac && k != keep && IsDynamic(cfg, k) {
      ReleaseIsRelease(k);
      var mid := Turn(cfg, start, s, ReleaseOf(k));
      ReleaseForgets(cfg, s.store, ReleaseOf(k), s.clock);
      r := ReleaseOthers(cfg, start, mid, keep);
    }
  }

  predicate DeclinedBelow(s: Store, lo: nat, now: nat, ip: u32) {
    ip !in s.declined && forall x: u32 :: lo <= x < ip ==> s.IsQuarantined(x, now)
  }

  lemma DeclineOnlyQuarantines(cfg: DhcpConfig, s: Store, pkt: DhcpPacket, d: u32, now: Instant)
    requires IsType(pkt, Decline) && pkt.options.RequestedIp() == Some(d) && d != 0 && pkt.chaddr !in s.byMac
    ensures After(cfg, s, pkt, now) == s.Quarantine(d, now + DECLINE_QUARANTINE_SECS)
  {
    assert s.Remove(pkt.chaddr) == s;
  }

  lemma QuarantineNext(s: Store, d: u32, now: Instant, ip: u32)
    requires d < ip && DeclinedBelow(s, d + 1, now, ip)
    ensures DeclinedBelow(s.Quarantine(d, now + DECLINE_QUARANTINE_SECS), d, now, ip)
  {
    var r := s.Quarantine(d, now + DECLINE_QUARANTINE_SECS);
    forall x: u32 | d <= x < ip
      ensures r.IsQuarantined(x, now)
    {
      assert x != d ==> s.IsQuarantined(x, now);
    }
  }

  lemma DeclineTurn(cfg: DhcpConfig, start: State, s: State, keep: Mac, b: Mac, d: u32, ip: u32) returns (r: State)
    requires Leads(cfg, start, s) && Idle(s) && b !in s.store.byMac && b != keep
    requires 0 < d < ip && DeclinedBelow(s.store, d + 1, s.clock, ip)
    ensures Leads(cfg, start, r) && Reduced(s, r, keep) && r.store.byMac == s.store.byMac
    ensures DeclinedBelow(r.store, d, s.clock, ip)
  {
    DeclineIsDecline(b, d);
    r := Turn(cfg, start, s, DeclineOf(b, d));
    DeclineOnlyQuarantines(cfg, s.store, DeclineOf(b, d), d, s.clock);
    QuarantineNext(s.store, d, s.clock, ip);
  }

  /** A client without a lease declines every address below `at` down to `lo`, the highest first. */
  lemma {:induction false} DeclineDown(cfg: DhcpConfig, start: State, s: State, keep: Mac, b: Mac,
                                       lo: nat, at: u32, ip: u32)
    returns (r: State)
    requires Leads(cfg, start, s) && Idle(s) && b !in s.store.byMac && b != keep
    requires 0 < lo <= at <= ip && DeclinedBelow(s.store, at, s.clock, ip)
    ensures Leads(cfg, start, r) && Reduced(s, r, keep) && r.store.byMac == s.store.byMac
    ensures DeclinedBelow(r.store, lo, r.clock, ip)
    decreases at
  {
    r := s;
    if lo < at {
      var mid := DeclineTurn(cfg, start, s, keep, b, at - 1, ip);
      r := DeclineDown(cfg, start, mid, keep, b, lo, at - 1, ip);
    }
  }

  /** The address is then what a new client is given. */
  lemma LowestIsAssigned(cfg: DhcpConfig, s: Store, b: Mac, now: nat, ip: u32)
    requires IsDynamic(cfg, b) && b !in s.byMac && cfg.InPool(ip) && Usable(cfg, s, b, now, ip)
    requires DeclinedBelow(s, cfg.poolStart, now, ip)
    ensures Assign(cfg, s, b, now) == Some(ip)
  {
    AssignMeaning(cfg, s, b, now);
    var r := Assign(cfg, s, b, now);
    assert !OwnUsable(cfg, s, b, now);
    assert r.Some? && r.value <= ip;
    assert cfg.InPool(r.value) && !s.IsQuarantined(r.value, now);
  }

  // ---- A second client ----

  /** A MAC for every 32-bit number. */
  function NthMac(n: u32): Mac {
    Octets(n) + [0, 0]
  }

  lemma NthMacInjective(i: u32, j: u32)
    requires NthMac(i) == NthMac(j)
    ensures i == j
  {
    assert NthMac(i)[..4] == Octets(i) && NthMac(j)[..4] == Octets(j);
  }

  /** Among one number more than there are MACs in use, some number's MAC is not in use. */
  lemma {:induction false} UnusedMac(used: set<Mac>, lo: nat) returns (n: u32)
    requires lo + |used| < TWO_32
    ensures lo <= n && NthMac(n) !in used
    decreases |used|
  {
    n := lo;
    if NthMac(lo) in used {
      n := UnusedMac(used - {NthMac(lo)}, lo + 1);
      if NthMac(n) == NthMac(lo) {
        NthMacInjective(n, lo);
        assert false;
      }
    }
  }

  function MacsOfStatics(statics: seq<StaticLease>): set<Mac> {
    set st | st in statics :: st.mac
  }

  function IpsOfStatics(statics: seq<StaticLease>): set<u32> {
    set st | st in statics :: st.ip
  }

  lemma {:induction false} IpsCount(statics: seq<StaticLease>)
    requires DistinctStatics(statics)
    ensures |IpsOfStatics(statics)| == |statics|
  {
    if statics != [] {
      var n := |statics| - 1;
      var front, last := statics[..n], statics[n];
      assert statics == front + [last];
      IpsCount(front);
      assert IpsOfStatics(statics) == IpsOfStatics(front) + {last.ip};
      assert last.ip !in IpsOfStatics(front);
    }
  }

  lemma {:induction false} MacsCount(statics: seq<StaticLease>)
    ensures |MacsOfStatics(statics)| <= |statics|
  {
    if statics != [] {
      var n := |statics| - 1;
      var front, last := statics[..n], statics[n];
      assert statics == front + [last];
      MacsCount(front);
      assert MacsOfStatics(statics) == MacsOfStatics(front) + {last.mac};
    }
  }

  /** There are always more MACs than static bindings, whose addresses must be different hosts of one subnet. */
  lemma SecondClient(cfg: DhcpConfig, a: Mac) returns (b: Mac)
    requires Valid(cfg)
    ensures IsDynamic(cfg, b) && b != a
  {
    var hosts := PoolFrom(cfg.subnet.Network() + 1, cfg.subnet.Broadcast() - 1);
    IpsCount(cfg.statics);
    MacsCount(cfg.statics);
    StaticsAreHosts(cfg);
    SubsetSize(hosts, IpsOfStatics(cfg.statics));
    var n := UnusedMac(MacsOfStatics(cfg.statics) + {a}, 0);
    b := NthMac(n);
    assert forall st :: st in cfg.statics ==> st.mac in MacsOfStatics(cfg.statics);
  }

  lemma StaticsAreHosts(cfg: DhcpConfig)
    requires Valid(cfg)
    ensures IpsOfStatics(cfg.statics) <= PoolFrom(cfg.subnet.Network() + 1, cfg.subnet.Broadcast() - 1)
  {
    forall st | st in cfg.statics
      ensures HostAddress(cfg.subnet, st.ip)
    {
      var i :| 0 <= i < |cfg.statics| && cfg.statics[i] == st;
    }
  }

  // ---- The exact condition ----

  /** The daemon has booted; neither the client's own lease nor one that nobody can end is on the address of its ACK. */
  lemma TakeOver(cfg: DhcpConfig, start: State, s: State, a: Mac)
    requires Valid(cfg) && Leads(cfg, start, s) && Idle(s) && s.store.declined == map[]
    requires InForce(s, a) && IsDynamic(cfg, a) && Proper(cfg, a, s.acks[a].ip)
    requires forall k :: k in s.store.byMac && (k == a || !IsDynamic(cfg, k)) ==> s.store.byMac[k].ip != s.acks[a].ip
    ensures exists r :: Leads(cfg, start, r) && !Exclusive(r)
  {
    var ip := s.acks[a].ip;
    var b := SecondClient(cfg, a);
    PoolIsHostRange(cfg, ip);
    PoolIsHostRange(cfg, cfg.poolStart);
    var cleared := ReleaseOthers(cfg, start, s, a);
    var low := DeclineDown(cfg, start, cleared, a, b, cfg.poolStart, ip, ip);
    ReservedInPool(cfg, ip);
    assert Usable(cfg, low.store, b, low.clock, ip);
    LowestIsAssigned(cfg, low.store, b, low.clock, ip);
    var r := GrantTo(cfg, start, low, b, ip);
    assert InForce(r, a) && InForce(r, b) && r.acks[a].ip == r.acks[b].ip;
  }

  /** The request goes through. */
  lemma GrantTo(cfg: DhcpConfig, start: State, s: State, b: Mac, ip: u32) returns (r: State)
    requires cfg.leaseTime > 0 && Leads(cfg, start, s) && Idle(s) && IsDynamic(cfg, b)
    requires Assign(cfg, s.store, b, s.clock) == Some(ip)
    ensures Leads(cfg, start, r) && r.clock == s.clock
    ensures InForce(r, b) && r.acks[b].ip == ip
    ensures forall a :: a in s.acks && a != b ==> a in r.acks && r.acks[a] == s.acks[a]
  {
    var pkt := PlainRequest(cfg, b);
    PlainRequestIsFresh(cfg, b);
    assert AnswerTo(cfg, s.store, pkt, s.clock) == Granting(ip);
    r := Turn(cfg, start, s, pkt);
  }

  lemma BootAt(cfg: DhcpConfig, start: State, s: State, t: Instant) returns (r: State)
    requires Leads(cfg, start, s) && s.phase.Down? && s.clock <= t
    ensures Leads(cfg, start, r) && Idle(r) && r.clock == t && r.acks == s.acks
    ensures r.store == Store(Live(LoadText(s.file), t), map[])
  {
    var late := s.(clock := t);
    LeadsBy(cfg, start, s, Tick(t));
    r := DoBoot(late);
    assert Apply(cfg, late, Boot) == r;
    LeadsBy(cfg, start, late, Boot);
    LoadedIsStorable(s.file);
  }

  /** A stopped daemon whose file does not hold the address of some ACK: time runs to the ACK's last second. */
  lemma LossBreaks(cfg: DhcpConfig, start: State, s: State, a: Mac)
    requires Valid(cfg) && Leads(cfg, start, s) && s.phase.Down? && s.clock + cfg.leaseTime <= LAST_INSTANT
    requires a in s.acks && AckSound(cfg, s, a) && !AckOnDisk(cfg, s, a, false)
    ensures exists r :: Leads(cfg, start, r) && !Exclusive(r)
  {
    var m, ack := LoadText(s.file), s.acks[a];
    assert forall k :: k in m && m[k].ip == ack.ip && (k == a || !IsDynamic(cfg, k)) ==> m[k].expiresAt < ack.expiresAt;
    var booted := BootAt(cfg, start, s, ack.expiresAt - 1);
    TakeOver(cfg, start, booted, a);
  }

  /** In any phase: what is not on disk is lost by a crash now, or right after it is sent. */
  lemma UnsafeBreaks(cfg: DhcpConfig, s: State)
    requires Valid(cfg) && Sound(cfg, s) && !DiskSafe(cfg, s, false) && s.clock + cfg.leaseTime <= LAST_INSTANT
    ensures exists r :: Leads(cfg, s, r) && !Exclusive(r)
  {
    LeadsNowhere(cfg, s);
    if GrantOnDisk(cfg, s, false) {
      var a :| a in s.acks && !AckOnDisk(cfg, s, a, false);
      CrashBreaks(cfg, s, s, a);
    } else {
      var sent := DoSend(cfg, s);
      assert Apply(cfg, s, Send) == sent;
      LeadsBy(cfg, s, s, Send);
      StepKeepsSound(cfg, s, Send);
      CrashBreaks(cfg, s, sent, s.phase.job.pkt.chaddr);
    }
  }

  lemma CrashNow(cfg: DhcpConfig, start: State, s: State) returns (r: State)
    requires Leads(cfg, start, s)
    ensures Leads(cfg, start, r) && r == s.(store := EMPTY_STORE, phase := Down)
  {
    r := s.(store := EMPTY_STORE, phase := Down);
    assert Apply(cfg, s, Crash) == r;
    LeadsBy(cfg, start, s, Crash);
  }

  lemma CrashKeepsLoss(cfg: DhcpConfig, s: State, a: Mac)
    requires Sound(cfg, s) && a in s.acks && !AckOnDisk(cfg, s, a, false)
    ensures var down := s.(store := EMPTY_STORE, phase := Down);
            AckSound(cfg, down, a) && !AckOnDisk(cfg, down, a, false)
  {
    assert AckSound(cfg, s, a);
  }

  lemma CrashBreaks(cfg: DhcpConfig, start: State, s: State, a: Mac)
    requires Valid(cfg) && Leads(cfg, start, s) && Sound(cfg, s) && s.clock + cfg.leaseTime <= LAST_INSTANT
    requires a in s.acks && !AckOnDisk(cfg, s, a, false)
    ensures exists r :: Leads(cfg, start, r) && !Exclusive(r)
  {
    CrashKeepsLoss(cfg, s, a);
    var down := CrashNow(cfg, start, s);
    LossBreaks(cfg, start, down, a);
  }

  /** No run with a forward clock and successful saves, crashes anywhere, ever puts two ACKs in force on one address. */
  ghost predicate StaysExclusive(cfg: DhcpConfig, s: State) {
    forall es :: BenignRun(cfg, s, es) ==> Exclusive(Exec(cfg, s, es))
  }

  /**
   Whatever was lost before, exclusivity lasts from here exactly when it holds now and the file holds the address of
   every ACK in force and of the grant about to be sent.
   */
  lemma StaysExclusiveExactly(cfg: DhcpConfig, s: State)
    requires Valid(cfg) && Sound(cfg, s) && s.clock + cfg.leaseTime <= LAST_INSTANT
    ensures StaysExclusive(cfg, s) <==> Exclusive(s) && DiskSafe(cfg, s, false)
  {
    if Exclusive(s) && DiskSafe(cfg, s, false) {
      DiskMakesMemory(cfg, s);
      forall es | BenignRun(cfg, s, es)
        ensures Exclusive(Exec(cfg, s, es))
      {
        BenignIsBacked(cfg, s, es, EVERYONE, false);
        RunKeepsExclusive(cfg, s, es, EVERYONE);
      }
    } else if Exclusive(s) {
      UnsafeBreaks(cfg, s);
    } else {
      assert BenignRun(cfg, s, []) && Exec(cfg, s, []) == s;
    }
  }

  // ---- Over runs ----

  predicate NoStaticLeases(cfg: DhcpConfig, m: LeaseMap) {
    forall k :: k in m ==> IsDynamic(cfg, k)
  }

  /** Given one configuration, a client with a static binding never gets a lease recorded. */
  predicate DynamicOnly(cfg: DhcpConfig, s: State) {
    Storable(s.store.byMac) && NoStaticLeases(cfg, s.store.byMac) && NoStaticLeases(cfg, LoadText(s.file))
  }

  lemma ReceiveKeepsDynamicOnly(cfg: DhcpConfig, s: State, pkt: DhcpPacket)
    requires DynamicOnly(cfg, s)
    ensures DynamicOnly(cfg, DoReceive(cfg, s, pkt))
  {
    DecideKeepsStorable(cfg, s.store, pkt, s.clock);
  }

  lemma SaveKeepsDynamicOnly(cfg: DhcpConfig, s: State, order: seq<Lease>, ok: bool)
    requires DynamicOnly(cfg, s) && (s.phase.Committing? || s.phase.Rewriting?) && Enumerates(order, s.store.byMac)
    ensures DynamicOnly(cfg, DoSave(s, order, ok))
  {
    SavedText(order, s.store.byMac);
  }

  lemma StepKeepsDynamicOnly(cfg: DhcpConfig, s: State, e: Event)
    requires DynamicOnly(cfg, s)
    ensures DynamicOnly(cfg, Apply(cfg, s, e))
  {
    match e
    case Receive(data) =>
      if s.phase.Waiting? && ParsePacket(data).Ok? {
        ReceiveKeepsDynamicOnly(cfg, s, ParsePacket(data).value);
      }
    case Boot => LoadedIsStorable(s.file);
    case Save(order, ok) =>
      if (s.phase.Committing? || s.phase.Rewriting?) && Enumerates(order, s.store.byMac) {
        SaveKeepsDynamicOnly(cfg, s, order, ok);
      }
    case _ =>
  }

  lemma {:induction false} RunKeepsDynamicOnly(cfg: DhcpConfig, s: State, es: seq<Event>)
    requires DynamicOnly(cfg, s)
    ensures DynamicOnly(cfg, Exec(cfg, s, es))
    decreases |es|
  {
    if es != [] {
      StepKeepsDynamicOnly(cfg, s, es[0]);
      RunKeepsDynamicOnly(cfg, Apply(cfg, s, es[0]), es[1..]);
    }
  }

  /** Then only the client's own lease can hold the address of its ACK. */
  lemma DynamicOnlyMeansOwn(cfg: DhcpConfig, s: State, mac: Mac)
    requires DynamicOnly(cfg, s) && mac in s.acks
    ensures AckOnDisk(cfg, s, mac, false) <==>
            (IsDynamic(cfg, mac) && InForce(s, mac) ==> Backs(LoadText(s.file), mac, s.acks[mac]))
  {
  }

  /**
   From any lease file, after any run whose clock goes forward, whatever saves failed and whatever boots missed, the
   future is safe exactly when the present is and the file holds it.
   */
  lemma StaysExclusiveOverRuns(cfg: DhcpConfig, file: string, clock: Instant, es: seq<Event>)
    requires Valid(cfg) && ForwardClock(cfg, Initial(file, clock), es)
    requires Exec(cfg, Initial(file, clock), es).clock + cfg.leaseTime <= LAST_INSTANT
    ensures var s := Exec(cfg, Initial(file, clock), es);
            StaysExclusive(cfg, s) <==> Exclusive(s) && DiskSafe(cfg, s, false)
  {
    InitialIsSafe(cfg, file, clock);
    RunKeepsSound(cfg, Initial(file, clock), es);
    StaysExclusiveExactly(cfg, Exec(cfg, Initial(file, clock), es));
  }
}
