/** Agreement of file and memory, restarts, and how stale memory may get. */
module Recovery {
  import opened Base
  import opened Config
  import opened Message
  import opened DhcpOptions
  import opened Packet
  import opened LeaseFile
  import opened LeaseStorage
  import opened Allocator
  import opened Protocol
  import opened ProtocolLaws
  import opened System
  import Exclusivity

  // ---- File and memory agree on live leases ----

  /** The leases that count at `now`, as the file can express them. */
  function LiveNormal(m: LeaseMap, now: nat): LeaseMap {
    Live(NormalMap(m), now)
  }

  /** Except between a decision and its save, a running daemon and its file hold the same live leases. */
  predicate Agrees(s: State) {
    && Storable(s.store.byMac)
    && (!s.phase.Down? && !s.phase.Committing? ==>
          LiveNormal(s.store.byMac, s.clock) == Live(LoadText(s.file), s.clock))
  }

  lemma LiveLater(m1: LeaseMap, m2: LeaseMap, t: nat, now: nat)
    requires t <= now && Live(m1, t) == Live(m2, t)
    ensures Live(m1, now) == Live(m2, now)
  {
    assert Live(m1, now) == Live(Live(m1, t), now);
    assert Live(m2, now) == Live(Live(m2, t), now);
  }

  lemma LiveNormalOfLive(m: LeaseMap, now: nat)
    ensures LiveNormal(Live(m, now), now) == LiveNormal(m, now)
  {
  }

  lemma BootAgrees(s: State)
    requires s.phase.Down?
    ensures Agrees(DoBoot(s))
  {
    LoadedIsStorable(s.file);
    var m := LoadText(s.file);
    LiveNormalOfLive(m, s.clock);
    assert NormalMap(m) == m;
  }

  lemma StepKeepsAgreement(cfg: DhcpConfig, s: State, e: Event)
    requires Agrees(s) && Benign(s, e)
    ensures Agrees(Apply(cfg, s, e))
  {
    match e
    case Tick(now) =>
      if !s.phase.Down? && !s.phase.Committing? {
        LiveLater(NormalMap(s.store.byMac), LoadText(s.file), s.clock, now);
      }
    case Boot => if s.phase.Down? { BootAgrees(s); }
    case Receive(data) =>
      if s.phase.Waiting? && ParsePacket(data).Ok? {
        ReceiveAgrees(cfg, s, ParsePacket(data).value);
      }
    case Save(order, ok) =>
      if (s.phase.Committing? || s.phase.Rewriting?) && Enumerates(order, s.store.byMac) {
        SavedText(order, s.store.byMac);
      }
    case Sweep =>
      LiveNormalOfLive(s.store.byMac, s.clock);
    case _ =>
  }

  lemma ReceiveAgrees(cfg: DhcpConfig, s: State, pkt: DhcpPacket)
    requires Agrees(s) && s.phase.Waiting?
    ensures Agrees(DoReceive(cfg, s, pkt))
  {
    DecideKeepsStorable(cfg, s.store, pkt, s.clock);
    if !Saves(cfg, s.store, pkt, s.clock) {
      UnsavedMeansUnchanged(cfg, s.store, pkt, s.clock);
    }
  }

  /** After every benign run, from any file at all, file and memory agree on the leases that are live. */
  lemma {:induction false} RunKeepsAgreement(cfg: DhcpConfig, s: State, es: seq<Event>)
    requires Agrees(s) && BenignRun(cfg, s, es)
    ensures Agrees(Exec(cfg, s, es))
    decreases |es|
  {
    if es != [] {
      StepKeepsAgreement(cfg, s, es[0]);
      RunKeepsAgreement(cfg, Apply(cfg, s, es[0]), es[1..]);
    }
  }

  /** Killing an idle daemon and booting it again later loses the quarantines and keeps exactly the leases live then. */
  lemma RestartKeepsLiveLeases(cfg: DhcpConfig, file: string, clock: Instant, es: seq<Event>, later: Instant)
    requires BenignRun(cfg, Initial(file, clock), es)
    requires Exec(cfg, Initial(file, clock), es).phase.Waiting?
    requires Exec(cfg, Initial(file, clock), es).clock <= later
    ensures var s := Exec(cfg, Initial(file, clock), es);
            var r := Exec(cfg, s, [Crash, Tick(later), Boot]);
            && r.phase.Waiting? && r.clock == later
            && r.store.byMac == LiveNormal(s.store.byMac, later)
            && r.store.declined == map[]
            && r.file == s.file
  {
    RunKeepsAgreement(cfg, Initial(file, clock), es);
    RestartFrom(cfg, Exec(cfg, Initial(file, clock), es), later);
  }

  lemma RestartFrom(cfg: DhcpConfig, s: State, later: Instant)
    requires Agrees(s) && s.phase.Waiting? && s.clock <= later
    ensures var r := Exec(cfg, s, [Crash, Tick(later), Boot]);
            && r.phase.Waiting? && r.clock == later
            && r.store.byMac == LiveNormal(s.store.byMac, later)
            && r.store.declined == map[]
            && r.file == s.file
  {
    ExecThree(cfg, s, Crash, Tick(later), Boot);
    LiveLater(NormalMap(s.store.byMac), LoadText(s.file), s.clock, later);
    var down := Apply(cfg, s, Crash);
    var late := Apply(cfg, down, Tick(later));
    assert Exec(cfg, s, [Crash, Tick(later), Boot]) == DoBoot(late);
  }

  /** The startup sweep does not rewrite the file: it equals memory afterwards exactly when nothing had expired. */
  lemma StartupLeavesExpiredOnDisk(cfg: DhcpConfig, s: State)
    requires s.phase.Down?
    ensures var r := Apply(cfg, s, Boot);
            && r.file == s.file
            && (r.store.byMac == LoadText(r.file) <==>
                  forall k :: k in LoadText(s.file) ==> LoadText(s.file)[k].expiresAt > s.clock)
  {
    var m := LoadText(s.file);
    if Live(m, s.clock) == m {
      forall k | k in m
        ensures m[k].expiresAt > s.clock
      {
        assert k in Live(m, s.clock);
      }
    }
  }

  // ---- Staleness ----

  /** Nothing in memory expired before the last sweep. */
  predicate Swept(s: State) {
    !s.phase.Down? ==>
      && s.nextPurge <= s.clock + PURGE_INTERVAL_SECS
      && (forall k :: k in s.store.byMac ==> s.store.byMac[k].expiresAt + PURGE_INTERVAL_SECS > s.nextPurge)
      && (forall ip :: ip in s.store.declined ==> s.store.declined[ip] + PURGE_INTERVAL_SECS > s.nextPurge)
  }

  lemma StepKeepsSwept(cfg: DhcpConfig, s: State, e: Event)
    requires cfg.leaseTime > 0 && Swept(s) && Forward(s, e)
    ensures Swept(Apply(cfg, s, e))
  {
    if e.Receive? && s.phase.Waiting? && ParsePacket(e.data).Ok? {
      ReceiveKeepsSwept(cfg, s, ParsePacket(e.data).value);
    }
  }

  lemma ReceiveKeepsSwept(cfg: DhcpConfig, s: State, pkt: DhcpPacket)
    requires cfg.leaseTime > 0 && Swept(s) && s.phase.Waiting?
    ensures Swept(DoReceive(cfg, s, pkt))
  {
  }

  lemma {:induction false} RunKeepsSwept(cfg: DhcpConfig, s: State, es: seq<Event>)
    requires cfg.leaseTime > 0 && Swept(s) && ForwardClock(cfg, s, es)
    ensures Swept(Exec(cfg, s, es))
    decreases |es|
  {
    if es != [] {
      StepKeepsSwept(cfg, s, es[0]);
      RunKeepsSwept(cfg, Apply(cfg, s, es[0]), es[1..]);
    }
  }

  /** At the end of every loop iteration no lease and no quarantine in memory is 300 seconds past its expiry. */
  lemma StalenessBound(cfg: DhcpConfig, file: string, clock: Instant, es: seq<Event>)
    requires Valid(cfg) && ForwardClock(cfg, Initial(file, clock), es)
    requires Exec(cfg, Initial(file, clock), es).phase.Sweeping?
    ensures var s := Apply(cfg, Exec(cfg, Initial(file, clock), es), Sweep);
            && s.nextPurge > s.clock
            && (forall k :: k in s.store.byMac ==> s.store.byMac[k].expiresAt + 300 > s.clock)
            && (forall ip :: ip in s.store.declined ==> s.store.declined[ip] + 300 > s.clock)
  {
    RunKeepsSwept(cfg, Initial(file, clock), es);
    SweepFreshens(Exec(cfg, Initial(file, clock), es));
  }

  lemma SweepFreshens(s: State)
    requires Swept(s) && s.phase.Sweeping?
    ensures var r := DoSweep(s);
            && r.nextPurge > r.clock
            && (forall k :: k in r.store.byMac ==> r.store.byMac[k].expiresAt + 300 > r.clock)
            && (forall ip :: ip in r.store.declined ==> r.store.declined[ip] + 300 > r.clock)
  {
  }

  // ---- The interval ----

  /** The timer is set: at boot, or by a sweep that is due. */
  predicate SetsTimer(s: State, e: Event) {
    (e.Boot? && s.phase.Down?) || (e.Sweep? && s.phase.Sweeping? && s.clock >= s.nextPurge)
  }

  /** No timer check of the run reads a clock of `due` or later. */
  ghost predicate NoCheckFrom(cfg: DhcpConfig, s: State, es: seq<Event>, due: nat)
    decreases |es|
  {
    es != [] ==>
      !(es[0].Sweep? && s.phase.Sweeping? && s.clock >= due) && NoCheckFrom(cfg, Apply(cfg, s, es[0]), es[1..], due)
  }

  lemma {:induction false} TimerStays(cfg: DhcpConfig, s: State, es: seq<Event>)
    requires !s.phase.Down? && NoCrash(es) && NoCheckFrom(cfg, s, es, s.nextPurge)
    ensures !Exec(cfg, s, es).phase.Down? && Exec(cfg, s, es).nextPurge == s.nextPurge
    decreases |es|
  {
    if es != [] {
      assert !es[0].Crash?;
      TimerStays(cfg, Apply(cfg, s, es[0]), es[1..]);
    }
  }

  /**
   After a boot or a sweep at `t`, whatever happens short of a crash, each timer check before `t + 300` leaves leases,
   quarantines and timer as they are, and the first one at `t + 300` or later sweeps and sets the timer anew.
   */
  lemma SweptEvery300(cfg: DhcpConfig, s: State, e: Event, es: seq<Event>)
    requires SetsTimer(s, e) && NoCrash(es) && NoCheckFrom(cfg, Apply(cfg, s, e), es, s.clock + 300)
    requires Exec(cfg, Apply(cfg, s, e), es).phase.Sweeping?
    ensures var r := Exec(cfg, Apply(cfg, s, e), es);
            var checked := Apply(cfg, r, Sweep);
            && (r.clock < s.clock + 300 ==> checked == r.(phase := Waiting))
            && (r.clock >= s.clock + 300 ==> checked.store == r.store.Purge(r.clock) && SetsTimer(r, Sweep))
  {
    TimerStays(cfg, Apply(cfg, s, e), es);
  }

  /** So a timer check drops a lease only if it had expired, and only 300 seconds or more after the timer was set. */
  lemma DroppedOnlyWhenDue(cfg: DhcpConfig, s: State, e: Event, es: seq<Event>, mac: Mac)
    requires SetsTimer(s, e) && NoCrash(es) && NoCheckFrom(cfg, Apply(cfg, s, e), es, s.clock + 300)
    requires Exec(cfg, Apply(cfg, s, e), es).phase.Sweeping? && mac in Exec(cfg, Apply(cfg, s, e), es).store.byMac
    ensures var r := Exec(cfg, Apply(cfg, s, e), es);
            mac !in Apply(cfg, r, Sweep).store.byMac <==>
            r.clock >= s.clock + 300 && r.store.byMac[mac].expiresAt <= r.clock
  {
    SweptEvery300(cfg, s, e, es);
  }

  // ---- Quarantine windows ----

  /** The address is held while the window lasts. */
  predicate Held(s: State, ip: u32, until: nat) {
    !s.phase.Down? && until <= s.clock + DECLINE_QUARANTINE_SECS && (s.clock < until ==> HeldUntil(s.store, ip, until))
  }

  lemma StepKeepsHeld(cfg: DhcpConfig, s: State, e: Event, ip: u32, until: nat)
    requires Held(s, ip, until) && Forward(s, e) && !e.Crash?
    ensures Held(Apply(cfg, s, e), ip, until)
  {
    if e.Receive? && s.phase.Waiting? && ParsePacket(e.data).Ok? && s.clock < until {
      DecideKeepsQuarantine(cfg, s.store, ParsePacket(e.data).value, s.clock, ip, until);
    }
  }

  lemma {:induction false} RunKeepsHeld(cfg: DhcpConfig, s: State, es: seq<Event>, ip: u32, until: nat)
    requires Held(s, ip, until) && ForwardClock(cfg, s, es) && NoCrash(es)
    ensures Held(Exec(cfg, s, es), ip, until)
    decreases |es|
  {
    if es != [] {
      StepKeepsHeld(cfg, s, es[0], ip, until);
      RunKeepsHeld(cfg, Apply(cfg, s, es[0]), es[1..], ip, until);
    }
  }

  /**
   For an hour after a DECLINE, through re-declines and sweeps of the same process, no reply to a client without a
   static binding carries the declined address.
   */
  lemma QuarantineWindow(cfg: DhcpConfig, s: State, decline: seq<byte>, es: seq<Event>,
                         data: seq<byte>, pkt: DhcpPacket)
    requires |cfg.dns| <= 63 && s.phase.Waiting?
    requires ParsePacket(decline).Ok? && IsType(ParsePacket(decline).value, Decline)
    requires Declined(s.store, ParsePacket(decline).value) != 0
    requires ForwardClock(cfg, Apply(cfg, s, Receive(decline)), es) && NoCrash(es)
    requires ParsePacket(data) == Ok(pkt) && IsDynamic(cfg, pkt.chaddr)
    ensures var later := Exec(cfg, Apply(cfg, s, Receive(decline)), es);
            later.clock < s.clock + 3600 ==>
              NeverCarries(Rendered(cfg, pkt, AnswerTo(cfg, later.store, pkt, later.clock)),
                           Declined(s.store, ParsePacket(decline).value))
  {
    var d := ParsePacket(decline).value;
    var ip, until := Declined(s.store, d), s.clock + 3600;
    DeclineQuarantines(cfg, s.store, d, s.clock);
    var first := Apply(cfg, s, Receive(decline));
    assert first == DoReceive(cfg, s, d);
    RunKeepsHeld(cfg, first, es, ip, until);
    var later := Exec(cfg, first, es);
    if later.clock < until {
      HeldIsNotCarried(cfg, later.store, pkt, later.clock, ip, until);
    }
  }

  /** A reply, if there is one, does not give this address in its `yiaddr` field. */
  predicate NeverCarries(reply: Option<(seq<byte>, ReplyDst)>, ip: u32) {
    reply.Some? ==> |reply.value.0| >= MIN_LEN && ReadReply(reply.value.0).yiaddr != ip
  }

  lemma HeldIsNotCarried(cfg: DhcpConfig, s: Store, pkt: DhcpPacket, now: Instant, ip: u32, until: nat)
    requires |cfg.dns| <= 63 && ip != 0 && HeldUntil(s, ip, until) && now < until && IsDynamic(cfg, pkt.chaddr)
    ensures NeverCarries(Rendered(cfg, pkt, AnswerTo(cfg, s, pkt, now)), ip)
  {
    HeldIsNotGiven(cfg, s, pkt, now, ip, until);
    RenderedReads(cfg, pkt, AnswerTo(cfg, s, pkt, now));
  }

  // ---- What a failed save may cost ----

  /** A plain REQUEST to this server from a client without a static binding. */
  predicate FreshRequest(cfg: DhcpConfig, pkt: DhcpPacket) {
    && IsType(pkt, Request) && IsDynamic(cfg, pkt.chaddr)
    && Requested(pkt) == 0 && pkt.options.ServerId() == Some(cfg.serverIp)
  }

  /** One client served from a freshly started daemon, its lease saved or not. */
  function Serving(data: seq<byte>, order: seq<Lease>, ok: bool): seq<Event> {
    [Boot, Receive(data)] + [Save(order, ok), Send, Crash]
  }

  lemma FreshGrant(cfg: DhcpConfig, s: Store, pkt: DhcpPacket, now: Instant)
    requires FreshRequest(cfg, pkt) && s == EMPTY_STORE && Assign(cfg, s, pkt.chaddr, now).Some?
    ensures var ip := Assign(cfg, s, pkt.chaddr, now).value;
            && AnswerTo(cfg, s, pkt, now) == Granting(ip) && Saves(cfg, s, pkt, now)
            && After(cfg, s, pkt, now) == Store(map[pkt.chaddr := NewLease(cfg, pkt, ip, now)], map[])
  {
    assert s.Purge(now) == s;
  }

  lemma OneLeaseOrder(m: LeaseMap, mac: Mac, l: Lease)
    requires m == map[mac := l] && l.mac == mac
    ensures Enumerates([l], m)
  {
  }

  /** The client ends up with an ACK in force whether or not its lease reached the file. */
  lemma ServeFresh(cfg: DhcpConfig, s: State, data: seq<byte>, pkt: DhcpPacket, ip: u32, ok: bool)
    requires s.phase.Down? && LoadText(s.file) == map[]
    requires ParsePacket(data) == Ok(pkt) && FreshRequest(cfg, pkt)
    requires Assign(cfg, EMPTY_STORE, pkt.chaddr, s.clock) == Some(ip)
    ensures var r := Exec(cfg, s, Serving(data, [NewLease(cfg, pkt, ip, s.clock)], ok));
            && r.phase.Down? && r.clock == s.clock
            && (!ok ==> r.file == s.file)
            && pkt.chaddr in r.acks && r.acks[pkt.chaddr] == AckRecord(ip, s.clock + cfg.leaseTime)
            && forall k :: k in s.acks && k != pkt.chaddr ==> k in r.acks && r.acks[k] == s.acks[k]
  {
    var l := NewLease(cfg, pkt, ip, s.clock);
    var job := Job(pkt, Granting(ip), s.clock);
    var s1 := Apply(cfg, s, Boot);
    var s2 := Apply(cfg, s1, Receive(data));
    assert s1 == DoBoot(s);
    ReceiveParsed(cfg, s1, data, pkt);
    ServeDecide(cfg, s, pkt, ip);
    assert s2.phase == Committing(job) && s2.acks == s.acks && s2.file == s.file && s2.clock == s.clock;
    ServeCommit(cfg, s2, job, [l], ok);
    ExecTwo(cfg, s, Boot, Receive(data));
    ExecThree(cfg, s2, Save([l], ok), Send, Crash);
    ExecConcat(cfg, s, [Boot, Receive(data)], [Save([l], ok), Send, Crash]);
  }

  lemma ServeDecide(cfg: DhcpConfig, s: State, pkt: DhcpPacket, ip: u32)
    requires s.phase.Down? && LoadText(s.file) == map[]
    requires FreshRequest(cfg, pkt) && Assign(cfg, EMPTY_STORE, pkt.chaddr, s.clock) == Some(ip)
    ensures var r := DoReceive(cfg, DoBoot(s), pkt);
            && r.phase == Committing(Job(pkt, Granting(ip), s.clock))
            && r.file == s.file && r.clock == s.clock && r.acks == s.acks
            && Enumerates([NewLease(cfg, pkt, ip, s.clock)], r.store.byMac)
  {
    var s1 := DoBoot(s);
    assert s1.store == EMPTY_STORE;
    FreshGrant(cfg, s1.store, pkt, s.clock);
    OneLeaseOrder(DoReceive(cfg, s1, pkt).store.byMac, pkt.chaddr, NewLease(cfg, pkt, ip, s.clock));
  }

  lemma ServeCommit(cfg: DhcpConfig, s: State, job: Job, order: seq<Lease>, ok: bool)
    requires s.phase == Committing(job) && job.answer.Granting? && Enumerates(order, s.store.byMac)
    ensures var r := Apply(cfg, Apply(cfg, Apply(cfg, s, Save(order, ok)), Send), Crash);
            && r.phase.Down? && r.clock == s.clock
            && (!ok ==> r.file == s.file)
            && r.acks == Superseded(s.acks, job)[job.pkt.chaddr := AckOf(cfg, job)]
  {
    var s3 := DoSave(s, order, ok);
    assert Apply(cfg, s, Save(order, ok)) == s3;
    assert Apply(cfg, s3, Send) == DoSend(cfg, s3);
  }

  /**
   Successful saves are needed: any two clients without static bindings, served one after the other by a daemon that
   dies after each ACK and whose first save fails, hold unexpired ACKs for the same address.
   */
  lemma FailedSaveBreaksExclusivity(cfg: DhcpConfig, clock: Instant, data1: seq<byte>, pkt1: DhcpPacket,
                                    data2: seq<byte>, pkt2: DhcpPacket)
    requires Valid(cfg) && UsableInPool(cfg, EMPTY_STORE, pkt1.chaddr, clock) != {}
    requires ParsePacket(data1) == Ok(pkt1) && FreshRequest(cfg, pkt1)
    requires ParsePacket(data2) == Ok(pkt2) && FreshRequest(cfg, pkt2) && pkt1.chaddr != pkt2.chaddr
    ensures var ip := Assign(cfg, EMPTY_STORE, pkt1.chaddr, clock);
            && ip.Some?
            && var mid := Exec(cfg, Initial("", clock), Serving(data1, [NewLease(cfg, pkt1, ip.value, clock)], false));
               var s := Exec(cfg, mid, Serving(data2, [NewLease(cfg, pkt2, ip.value, clock)], true));
               && Exclusivity.InForce(s, pkt1.chaddr) && Exclusivity.InForce(s, pkt2.chaddr)
               && s.acks[pkt1.chaddr].ip == s.acks[pkt2.chaddr].ip
  {
    NoneMeansNoUsable(cfg, EMPTY_STORE, pkt1.chaddr, clock);
    var ip := Assign(cfg, EMPTY_STORE, pkt1.chaddr, clock).value;
    EmptyStoreAssignsAlike(cfg, pkt1.chaddr, pkt2.chaddr, clock);
    var s0 := Initial("", clock);
    ServeFresh(cfg, s0, data1, pkt1, ip, false);
    var mid := Exec(cfg, s0, Serving(data1, [NewLease(cfg, pkt1, ip, clock)], false));
    ServeFresh(cfg, mid, data2, pkt2, ip, true);
  }

  function PlainRequest(cfg: DhcpConfig, mac: Mac): DhcpPacket {
    DhcpPacket(0, 0, 0, 0, mac, Options([Item(OPT_MSG_TYPE, [3]), Item(OPT_SERVER_ID, Octets(cfg.serverIp))]))
  }

  lemma PlainRequestIsFresh(cfg: DhcpConfig, mac: Mac)
    requires IsDynamic(cfg, mac)
    ensures FreshRequest(cfg, PlainRequest(cfg, mac))
    ensures ParsePacket(PacketBytes(PlainRequest(cfg, mac))) == Ok(PlainRequest(cfg, mac))
  {
    var pkt := PlainRequest(cfg, mac);
    ArrivesExactly(pkt);
    FindUnique(pkt.options.items, 0);
    FindUnique(pkt.options.items, 1);
    assert pkt.options.RequestedIp().None?;
  }

  lemma EmptyStoreAssignsAlike(cfg: DhcpConfig, a: Mac, b: Mac, now: nat)
    requires IsDynamic(cfg, a) && IsDynamic(cfg, b)
    ensures Assign(cfg, EMPTY_STORE, a, now) == Assign(cfg, EMPTY_STORE, b, now)
  {
    SameTestSameFirst((ip: u32) => Usable(cfg, EMPTY_STORE, a, now, ip),
                      (ip: u32) => Usable(cfg, EMPTY_STORE, b, now, ip),
                      cfg.poolStart, cfg.poolEnd);
  }
}
