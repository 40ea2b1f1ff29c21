/**
 The daemon as a state machine: memory, the lease file, the clock and the point reached in the receive loop.
 Every list of events is a run; an event that does not fit the current point changes nothing. What a theorem
 assumes about the environment (a clock that does not go back, saves that succeed) it says about the events.
 */
module System {
  import opened Base
  import opened Config
  import opened Message
  import opened Packet
  import opened LeaseFile
  import opened LeaseStorage
  import opened Allocator
  import opened Protocol
  import opened ProtocolLaws

  const PURGE_INTERVAL_SECS: nat := 300

  /** A packet decided but not yet answered. */
  datatype Job = Job(pkt: DhcpPacket, answer: Answer, at: Instant)

  datatype Phase =
    | Down                 // no process
    | Waiting              // blocked in receive
    | Committing(job: Job) // the decision changed the leases; the file is about to be replaced
    | Sending(job: Job)    // the reply, if any, is about to be sent
    | Sweeping             // the purge timer is about to be checked
    | Rewriting            // a sweep dropped leases; the file is about to be replaced

  /** A client's record of the last address-granting ACK it was sent and has not given up. */
  datatype AckRecord = AckRecord(ip: u32, expiresAt: nat)

  datatype State = State(
    file: string,
    store: Store,
    phase: Phase,
    nextPurge: nat,
    clock: Instant,
    acks: map<Mac, AckRecord>) // history only: never read by the daemon

  datatype Event =
    | Tick(now: Instant)
    | Boot
    | Receive(data: seq<byte>)
    | Timeout
    | Save(order: seq<Lease>, ok: bool)
    | Send
    | Sweep
    | Crash

  const EMPTY_STORE: Store := Store(map[], map[])

  function Initial(file: string, clock: Instant): State {
    State(file, EMPTY_STORE, Down, 0, clock, map[])
  }

  function AckOf(cfg: DhcpConfig, job: Job): AckRecord
    requires job.answer.Granting?
  {
    AckRecord(job.answer.ip, job.at + cfg.leaseTime)
  }

  /** Once another address is committed for a client, its earlier ACK no longer counts. */
  function Superseded(acks: map<Mac, AckRecord>, job: Job): map<Mac, AckRecord> {
    var mac := job.pkt.chaddr;
    if job.answer.Granting? && mac in acks && acks[mac].ip != job.answer.ip then acks - {mac} else acks
  }

  // ---- Steps ----

  function DoReceive(cfg: DhcpConfig, s: State, pkt: DhcpPacket): State {
    var job := Job(pkt, AnswerTo(cfg, s.store, pkt, s.clock), s.clock);
    s.(store := After(cfg, s.store, pkt, s.clock),
       acks := if IsType(pkt, Release) || IsType(pkt, Decline) then s.acks - {pkt.chaddr} else s.acks,
       phase := if Saves(cfg, s.store, pkt, s.clock) then Committing(job) else Sending(job))
  }

  function DoBoot(s: State): State {
    s.(store := Store(LoadText(s.file), map[]).Purge(s.clock),
       nextPurge := s.clock + PURGE_INTERVAL_SECS,
       phase := Waiting)
  }

  function DoSave(s: State, order: seq<Lease>, ok: bool): State
    requires s.phase.Committing? || s.phase.Rewriting?
  {
    var saved := if ok then s.(file := TextOf(SortByIp(order))) else s;
    if s.phase.Rewriting? then saved.(phase := Waiting)
    else saved.(acks := Superseded(s.acks, s.phase.job), phase := Sending(s.phase.job))
  }

  function DoSend(cfg: DhcpConfig, s: State): State
    requires s.phase.Sending?
  {
    var job := s.phase.job;
    s.(acks := if job.answer.Granting? then s.acks[job.pkt.chaddr := AckOf(cfg, job)] else s.acks,
       phase := Sweeping)
  }

  function DoSweep(s: State): State {
    if s.clock < s.nextPurge then s.(phase := Waiting)
    else
      var purged := s.store.Purge(s.clock);
      s.(store := purged,
         nextPurge := s.clock + PURGE_INTERVAL_SECS,
         phase := if purged.byMac == s.store.byMac then Waiting else Rewriting)
  }

  ghost function Apply(cfg: DhcpConfig, s: State, e: Event): State {
    match e
    case Tick(now) => s.(clock := now)
    case Crash => s.(store := EMPTY_STORE, phase := Down)
    case Boot => if s.phase.Down? then DoBoot(s) else s
    case Timeout => if s.phase.Waiting? then s.(phase := Sweeping) else s
    case Receive(data) =>
      if !s.phase.Waiting? then s
      else
        var pkt := ParsePacket(data);
        if pkt.Err? then s.(phase := Sweeping) else DoReceive(cfg, s, pkt.value)
    case Save(order, ok) =>
      if (s.phase.Committing? || s.phase.Rewriting?) && Enumerates(order, s.store.byMac) then DoSave(s, order, ok)
      else s
    case Send => if s.phase.Sending? then DoSend(cfg, s) else s
    case Sweep => if s.phase.Sweeping? then DoSweep(s) else s
  }

  ghost function Exec(cfg: DhcpConfig, s: State, es: seq<Event>): State
    decreases |es|
  {
    if es == [] then s else Exec(cfg, Apply(cfg, s, es[0]), es[1..])
  }

  lemma {:induction false} ExecLast(cfg: DhcpConfig, s: State, es: seq<Event>, e: Event)
    ensures Exec(cfg, s, es + [e]) == Apply(cfg, Exec(cfg, s, es), e)
    decreases |es|
  {
    if es == [] {
      assert ([e])[1..] == [];
      assert es + [e] == [e];
    } else {
      assert (es + [e])[1..] == es[1..] + [e];
      ExecLast(cfg, Apply(cfg, s, es[0]), es[1..], e);
    }
  }

  lemma ExecTwo(cfg: DhcpConfig, s: State, a: Event, b: Event)
    ensures Exec(cfg, s, [a, b]) == Apply(cfg, Apply(cfg, s, a), b)
  {
    ExecLast(cfg, s, [], a);
    ExecLast(cfg, s, [a], b);
    assert [] + [a] == [a] && [a] + [b] == [a, b];
  }

  lemma ExecThree(cfg: DhcpConfig, s: State, a: Event, b: Event, c: Event)
    ensures Exec(cfg, s, [a, b, c]) == Apply(cfg, Apply(cfg, Apply(cfg, s, a), b), c)
  {
    ExecTwo(cfg, s, a, b);
    ExecLast(cfg, s, [a, b], c);
    assert [a, b] + [c] == [a, b, c];
  }

  lemma ReceiveParsed(cfg: DhcpConfig, s: State, data: seq<byte>, pkt: DhcpPacket)
    requires s.phase.Waiting? && ParsePacket(data) == Ok(pkt)
    ensures Apply(cfg, s, Receive(data)) == DoReceive(cfg, s, pkt)
  {
  }

  // ---- Assumptions on the environment ----

  /** The clock does not go back. */
  predicate Forward(s: State, e: Event) {
    e.Tick? ==> s.clock <= e.now
  }

  ghost predicate ForwardClock(cfg: DhcpConfig, s: State, es: seq<Event>)
    decreases |es|
  {
    es != [] ==> Forward(s, es[0]) && ForwardClock(cfg, Apply(cfg, s, es[0]), es[1..])
  }

  /** And a save, when it happens, succeeds. */
  predicate Benign(s: State, e: Event) {
    Forward(s, e) && (e.Save? ==> e.ok)
  }

  ghost predicate BenignRun(cfg: DhcpConfig, s: State, es: seq<Event>)
    decreases |es|
  {
    es != [] ==> Benign(s, es[0]) && BenignRun(cfg, Apply(cfg, s, es[0]), es[1..])
  }

  predicate NoCrash(es: seq<Event>) {
    forall i :: 0 <= i < |es| ==> !es[i].Crash?
  }

  lemma {:induction false} ExecConcat(cfg: DhcpConfig, s: State, a: seq<Event>, b: seq<Event>)
    ensures Exec(cfg, s, a + b) == Exec(cfg, Exec(cfg, s, a), b)
    ensures BenignRun(cfg, s, a + b) <==> BenignRun(cfg, s, a) && BenignRun(cfg, Exec(cfg, s, a), b)
    decreases |a|
  {
    if a == [] {
      assert a + b == b;
    } else {
      assert (a + b)[1..] == a[1..] + b;
      ExecConcat(cfg, Apply(cfg, s, a[0]), a[1..], b);
    }
  }

  // ---- What a run takes in and sends out ----

  /** The events the world decides: clock readings, datagrams, timeouts and the turns of the loop. */
  function External(es: seq<Event>): seq<Event> {
    if es == [] then [] else Visible(es[0]) + External(es[1..])
  }

  function Visible(e: Event): seq<Event> {
    if e.Save? || e.Send? then [] else [e]
  }

  lemma {:induction false} ExternalLast(es: seq<Event>, e: Event)
    ensures External(es + [e]) == External(es) + Visible(e)
  {
    if es == [] {
      assert es + [e] == [e] && [e][1..] == [];
    } else {
      assert (es + [e])[1..] == es[1..] + [e];
      ExternalLast(es[1..], e);
    }
  }

  /** The reply a step puts on the wire. */
  function ReplyAt(cfg: DhcpConfig, s: State, e: Event): seq<(seq<byte>, ReplyDst)>
    requires |cfg.dns| <= 63
  {
    if e.Send? && s.phase.Sending? then
      var r := Rendered(cfg, s.phase.job.pkt, s.phase.job.answer);
      if r.Some? then [r.value] else []
    else []
  }

  /** Everything a run puts on the wire, in order. */
  ghost function Replies(cfg: DhcpConfig, s: State, es: seq<Event>): seq<(seq<byte>, ReplyDst)>
    requires |cfg.dns| <= 63
    decreases |es|
  {
    if es == [] then [] else ReplyAt(cfg, s, es[0]) + Replies(cfg, Apply(cfg, s, es[0]), es[1..])
  }

  lemma {:induction false} RepliesLast(cfg: DhcpConfig, s: State, es: seq<Event>, e: Event)
    requires |cfg.dns| <= 63
    ensures Replies(cfg, s, es + [e]) == Replies(cfg, s, es) + ReplyAt(cfg, Exec(cfg, s, es), e)
    decreases |es|
  {
    if es == [] {
      assert es + [e] == [e] && [e][1..] == [];
      assert Replies(cfg, Apply(cfg, s, e), []) == [];
    } else {
      assert (es + [e])[1..] == es[1..] + [e];
      RepliesLast(cfg, Apply(cfg, s, es[0]), es[1..], e);
    }
  }

  /** Whether a save that takes place succeeds. */
  ghost function SaveAt(s: State, e: Event): seq<bool> {
    if e.Save? && (s.phase.Committing? || s.phase.Rewriting?) && Enumerates(e.order, s.store.byMac) then [e.ok] else []
  }

  /** The outcome of every save of a run, in order. */
  ghost function SaveOutcomes(cfg: DhcpConfig, s: State, es: seq<Event>): seq<bool>
    decreases |es|
  {
    if es == [] then [] else SaveAt(s, es[0]) + SaveOutcomes(cfg, Apply(cfg, s, es[0]), es[1..])
  }

  lemma {:induction false} SaveOutcomesLast(cfg: DhcpConfig, s: State, es: seq<Event>, e: Event)
    ensures SaveOutcomes(cfg, s, es + [e]) == SaveOutcomes(cfg, s, es) + SaveAt(Exec(cfg, s, es), e)
    decreases |es|
  {
    if es == [] {
      assert es + [e] == [e] && [e][1..] == [];
      assert SaveOutcomes(cfg, Apply(cfg, s, e), []) == [];
    } else {
      assert (es + [e])[1..] == es[1..] + [e];
      SaveOutcomesLast(cfg, Apply(cfg, s, es[0]), es[1..], e);
    }
  }

  // ---- Injectivity: any clock, any save outcome, any crash ----

  /** No two clients share an address, in memory or in the file. */
  predicate ConflictFree(s: State) {
    && Storable(s.store.byMac) && IpInjective(s.store.byMac)
    && IpInjective(LoadText(s.file))
  }

  lemma NormalKeepsInjective(m: LeaseMap)
    requires IpInjective(m)
    ensures IpInjective(NormalMap(m))
  {
    forall a, b | a in m && b in m && a != b
      ensures NormalMap(m)[a].ip != NormalMap(m)[b].ip
    {
    }
  }

  /** What a successful save leaves in the file. */
  lemma SavedText(order: seq<Lease>, m: LeaseMap)
    requires Storable(m) && Enumerates(order, m)
    ensures LoadText(TextOf(SortByIp(order))) == NormalMap(m)
  {
    SortEnumerates(order, m);
    LoadSaved(SortByIp(order), m);
  }

  lemma ReceiveKeepsConflictFree(cfg: DhcpConfig, s: State, pkt: DhcpPacket)
    requires ConflictFree(s)
    ensures ConflictFree(DoReceive(cfg, s, pkt))
  {
    DecideKeepsStorable(cfg, s.store, pkt, s.clock);
    DecideKeepsInjective(cfg, s.store, pkt, s.clock);
  }

  lemma SaveKeepsConflictFree(s: State, order: seq<Lease>, ok: bool)
    requires ConflictFree(s) && (s.phase.Committing? || s.phase.Rewriting?) && Enumerates(order, s.store.byMac)
    ensures ConflictFree(DoSave(s, order, ok))
  {
    SavedText(order, s.store.byMac);
    NormalKeepsInjective(s.store.byMac);
  }

  lemma SweepKeepsConflictFree(s: State)
    requires ConflictFree(s)
    ensures ConflictFree(DoSweep(s))
  {
  }

  lemma BootKeepsConflictFree(s: State)
    requires ConflictFree(s)
    ensures ConflictFree(DoBoot(s))
  {
    LoadedIsStorable(s.file);
  }

  lemma StepKeepsConflictFree(cfg: DhcpConfig, s: State, e: Event)
    requires ConflictFree(s)
    ensures ConflictFree(Apply(cfg, s, e))
  {
    match e
    case Receive(data) =>
      if s.phase.Waiting? && ParsePacket(data).Ok? {
        ReceiveKeepsConflictFree(cfg, s, ParsePacket(data).value);
      }
    case Boot => BootKeepsConflictFree(s);
    case Sweep => SweepKeepsConflictFree(s);
    case Save(order, ok) =>
      if (s.phase.Committing? || s.phase.Rewriting?) && Enumerates(order, s.store.byMac) {
        SaveKeepsConflictFree(s, order, ok);
      }
    case _ =>
  }

  /** From a conflict-free file, no run whatever (clock jumps, failed saves, crashes) puts two clients on an address. */
  lemma {:induction false} RunKeepsConflictFree(cfg: DhcpConfig, s: State, es: seq<Event>)
    requires ConflictFree(s)
    ensures ConflictFree(Exec(cfg, s, es))
    decreases |es|
  {
    if es != [] {
      StepKeepsConflictFree(cfg, s, es[0]);
      RunKeepsConflictFree(cfg, Apply(cfg, s, es[0]), es[1..]);
    }
  }

  // ---- Confinement and capacity ----

  predicate ConfinedState(cfg: DhcpConfig, s: State) {
    Confined(cfg, s.store.byMac) && Confined(cfg, LoadText(s.file))
  }

  lemma SavedIsConfined(cfg: DhcpConfig, order: seq<Lease>, m: LeaseMap)
    requires Storable(m) && Confined(cfg, m) && Enumerates(order, m)
    ensures Confined(cfg, LoadText(TextOf(SortByIp(order))))
  {
    SavedText(order, m);
    assert forall k :: k in NormalMap(m) ==> k in m && NormalMap(m)[k].ip == m[k].ip;
  }

  lemma SaveKeepsConfined(cfg: DhcpConfig, s: State, order: seq<Lease>, ok: bool)
    requires Storable(s.store.byMac) && ConfinedState(cfg, s)
    requires (s.phase.Committing? || s.phase.Rewriting?) && Enumerates(order, s.store.byMac)
    ensures ConfinedState(cfg, DoSave(s, order, ok))
  {
    SavedIsConfined(cfg, order, s.store.byMac);
  }

  lemma PurgeKeepsConfined(cfg: DhcpConfig, s: State)
    requires ConfinedState(cfg, s)
    ensures ConfinedState(cfg, DoSweep(s)) && ConfinedState(cfg, DoBoot(s))
  {
  }

  lemma StepKeepsConfined(cfg: DhcpConfig, s: State, e: Event)
    requires ConflictFree(s) && ConfinedState(cfg, s)
    ensures ConfinedState(cfg, Apply(cfg, s, e))
  {
    PurgeKeepsConfined(cfg, s);
    match e
    case Receive(data) =>
      if s.phase.Waiting? && ParsePacket(data).Ok? {
        DecideKeepsConfined(cfg, s.store, ParsePacket(data).value, s.clock);
      }
    case Save(order, ok) =>
      if (s.phase.Committing? || s.phase.Rewriting?) && Enumerates(order, s.store.byMac) {
        SaveKeepsConfined(cfg, s, order, ok);
      }
    case _ =>
  }

  lemma {:induction false} RunKeepsConfined(cfg: DhcpConfig, s: State, es: seq<Event>)
    requires ConflictFree(s) && ConfinedState(cfg, s)
    ensures ConflictFree(Exec(cfg, s, es)) && ConfinedState(cfg, Exec(cfg, s, es))
    decreases |es|
  {
    if es != [] {
      StepKeepsConflictFree(cfg, s, es[0]);
      StepKeepsConfined(cfg, s, es[0]);
      RunKeepsConfined(cfg, Apply(cfg, s, es[0]), es[1..]);
    }
  }

  /** Starting without a lease file, leases in memory and on disk never exceed the pool less its static addresses. */
  lemma CapacityOverRuns(cfg: DhcpConfig, clock: Instant, es: seq<Event>)
    requires Valid(cfg)
    ensures var s := Exec(cfg, Initial("", clock), es);
            && |s.store.byMac| + |StaticsInPool(cfg)| <= cfg.poolEnd - cfg.poolStart + 1
            && |LoadText(s.file)| + |StaticsInPool(cfg)| <= cfg.poolEnd - cfg.poolStart + 1
  {
    assert LoadText("") == map[];
    RunKeepsConfined(cfg, Initial("", clock), es);
    var s := Exec(cfg, Initial("", clock), es);
    CapacityBound(cfg, s.store.byMac);
    CapacityBound(cfg, LoadText(s.file));
  }
}
