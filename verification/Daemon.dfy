/** The receive loop: each iteration of the imperative daemon is a run of the state machine. */
module Daemon {
  import opened Base
  import opened Config
  import opened Packet
  import opened LeaseFile
  import opened LeaseStorage
  import opened Protocol
  import opened ProtocolLaws
  import opened System
  import Exclusivity
  import Recovery

  /** What one iteration meets: a datagram or a poll timeout, two clock readings, and whether saves would succeed. */
  datatype Input = Input(
    datagram: Option<seq<byte>>,
    receivedAt: Instant,
    checkedAt: Instant,
    saveOk: bool,
    resaveOk: bool)

  /** Readings that do not go back from `clock` on, and saves that succeed. */
  predicate Steady(clock: Instant, inputs: seq<Input>) {
    forall k :: 0 <= k < |inputs| ==> SteadyTurn(ClockBefore(clock, inputs, k), inputs[k])
  }

  function ClockBefore(clock: Instant, inputs: seq<Input>, k: nat): Instant
    requires k <= |inputs|
  {
    if k == 0 then clock else inputs[k - 1].checkedAt
  }

  predicate SteadyTurn(clock: Instant, i: Input) {
    clock <= i.receivedAt <= i.checkedAt && i.saveOk && i.resaveOk
  }

  type Datagram = (seq<byte>, ReplyDst)

  /** The events an iteration takes in: datagram or timeout, then the timer check, each after a clock reading. */
  function Script(i: Input): seq<Event> {
    [Tick(i.receivedAt), if i.datagram.Some? then Receive(i.datagram.value) else Timeout, Tick(i.checkedAt), Sweep]
  }

  function Scripts(inputs: seq<Input>): seq<Event> {
    if inputs == [] then [] else Scripts(inputs[..|inputs| - 1]) + Script(inputs[|inputs| - 1])
  }

  /** The datagrams among the outcomes of a run of iterations. */
  function Sends(outcomes: seq<Option<Datagram>>): seq<Datagram> {
    if outcomes == [] then [] else Sends(outcomes[..|outcomes| - 1]) + SendOf(outcomes[|outcomes| - 1])
  }

  function SendOf(outcome: Option<Datagram>): seq<Datagram> {
    if outcome.Some? then [outcome.value] else []
  }

  // ---- What an iteration does, on values ----

  /** The part of the process an iteration works on, besides the file. */
  datatype Memory = Memory(store: Store, nextPurge: nat)

  /** The packet a datagram carries, if it is well formed. */
  function Heard(data: seq<byte>): Option<DhcpPacket> {
    var pkt := ParsePacket(data);
    if pkt.Ok? then Some(pkt.value) else None
  }

  function HeardIn(i: Input): Option<DhcpPacket> {
    if i.datagram.Some? then Heard(i.datagram.value) else None
  }

  /** The store once the packet, if any, has been handled. */
  function Served(cfg: DhcpConfig, s: Store, pkt: Option<DhcpPacket>, now: Instant): Store {
    if pkt.Some? then After(cfg, s, pkt.value, now) else s
  }

  function SavesServing(cfg: DhcpConfig, s: Store, pkt: Option<DhcpPacket>, now: Instant, saveOk: bool): seq<bool> {
    if pkt.Some? && Saves(cfg, s, pkt.value, now) then [saveOk] else []
  }

  function Reply(cfg: DhcpConfig, s: Store, pkt: Option<DhcpPacket>, now: Instant): Option<Datagram>
    requires |cfg.dns| <= 63
  {
    if pkt.Some? then Rendered(cfg, pkt.value, AnswerTo(cfg, s, pkt.value, now)) else None
  }

  function Checked(m: Memory, now: Instant): Memory {
    if now >= m.nextPurge then Memory(m.store.Purge(now), now + PURGE_INTERVAL_SECS) else m
  }

  /** The timer is due and its sweep drops a lease. */
  predicate Drops(m: Memory, now: Instant) {
    now >= m.nextPurge && m.store.Purge(now).byMac != m.store.byMac
  }

  function SavesChecking(m: Memory, now: Instant, saveOk: bool): seq<bool> {
    if Drops(m, now) then [saveOk] else []
  }

  /** One turn of the loop: the memory it leaves, how its saves went and what it sent. */
  datatype Turn = Turn(memory: Memory, saves: seq<bool>, sent: Option<Datagram>)

  function TurnOf(cfg: DhcpConfig, m: Memory, i: Input): Turn
    requires |cfg.dns| <= 63
  {
    var pkt := HeardIn(i);
    var served := Memory(Served(cfg, m.store, pkt, i.receivedAt), m.nextPurge);
    Turn(Checked(served, i.checkedAt),
         SavesServing(cfg, m.store, pkt, i.receivedAt, i.saveOk) + SavesChecking(served, i.checkedAt, i.resaveOk),
         Reply(cfg, m.store, pkt, i.receivedAt))
  }

  function Turns(cfg: DhcpConfig): (Memory, Input) --> Turn {
    (m, i) requires |cfg.dns| <= 63 => TurnOf(cfg, m, i)
  }

  /** This function says what a turn does. */
  ghost predicate Computes(cfg: DhcpConfig, turn: (Memory, Input) --> Turn)
    requires |cfg.dns| <= 63
  {
    && (forall m, i :: turn.requires(m, i))
    && (forall m, i {:trigger TurnOf(cfg, m, i)} :: turn(m, i) == TurnOf(cfg, m, i))
  }

  /** What turns one after the other amount to. */
  datatype Tally = Tally(memory: Memory, saves: seq<bool>, outcomes: seq<Option<Datagram>>)

  function Fold(turn: (Memory, Input) --> Turn, m: Memory, inputs: seq<Input>): Tally
    requires forall x, i :: turn.requires(x, i)
  {
    if inputs == [] then Tally(m, [], [])
    else
      var before := Fold(turn, m, inputs[..|inputs| - 1]);
      var last := turn(before.memory, inputs[|inputs| - 1]);
      Tally(last.memory, before.saves + last.saves, before.outcomes + [last.sent])
  }

  lemma FoldLast(turn: (Memory, Input) --> Turn, m: Memory, inputs: seq<Input>, input: Input)
    requires forall x, i :: turn.requires(x, i)
    ensures var before := Fold(turn, m, inputs);
            var last := turn(before.memory, input);
            Fold(turn, m, inputs + [input])
            == Tally(last.memory, before.saves + last.saves, before.outcomes + [last.sent])
  {
    assert (inputs + [input])[..|inputs|] == inputs;
  }

  // ---- The record of a run ----

  /** A run with its outcome: the state reached, what was taken in, sent and saved, and whether the world was benign. */
  datatype Log = Log(
    events: seq<Event>,
    state: State,
    taken: seq<Event>,
    sent: seq<Datagram>,
    saves: seq<bool>,
    smooth: bool)

  function Blank(s: State): Log {
    Log([], s, [], [], [], true)
  }

  ghost function Extend(cfg: DhcpConfig, log: Log, e: Event): Log
    requires |cfg.dns| <= 63
  {
    Log(log.events + [e], Apply(cfg, log.state, e), log.taken + Visible(e),
        log.sent + ReplyAt(cfg, log.state, e), log.saves + SaveAt(log.state, e), log.smooth && Benign(log.state, e))
  }

  ghost predicate Follows(cfg: DhcpConfig, trail: seq<Log>, i: nat)
    requires |cfg.dns| <= 63 && 0 < i < |trail|
  {
    trail[i].events != [] && trail[i] == Extend(cfg, trail[i - 1], trail[i].events[|trail[i].events| - 1])
  }

  /** Records, oldest first, each one event longer than the one before. */
  ghost predicate IsTrail(cfg: DhcpConfig, start: State, trail: seq<Log>)
    requires |cfg.dns| <= 63
  {
    |trail| > 0 && trail[0] == Blank(start) && forall i :: 0 < i < |trail| ==> Follows(cfg, trail, i)
  }

  lemma TrailGrows(cfg: DhcpConfig, start: State, trail: seq<Log>, e: Event)
    requires |cfg.dns| <= 63 && IsTrail(cfg, start, trail)
    ensures IsTrail(cfg, start, trail + [Extend(cfg, trail[|trail| - 1], e)])
  {
    var longer := trail + [Extend(cfg, trail[|trail| - 1], e)];
    forall i | 0 < i < |longer|
      ensures Follows(cfg, longer, i)
    {
      if i < |trail| {
        assert Follows(cfg, trail, i);
      }
    }
  }

  lemma FrontIsTrail(cfg: DhcpConfig, start: State, trail: seq<Log>)
    requires |cfg.dns| <= 63 && IsTrail(cfg, start, trail) && |trail| > 1
    ensures IsTrail(cfg, start, trail[..|trail| - 1])
    ensures Follows(cfg, trail, |trail| - 1)
  {
    var front := trail[..|trail| - 1];
    forall i | 0 < i < |front|
      ensures Follows(cfg, front, i)
    {
      assert Follows(cfg, trail, i);
    }
  }

  /** The record kept step by step is a run of the machine. */
  lemma {:induction false} TrailIsRun(cfg: DhcpConfig, start: State, trail: seq<Log>)
    requires |cfg.dns| <= 63 && IsTrail(cfg, start, trail)
    ensures trail[|trail| - 1] == LogOf(cfg, start, trail[|trail| - 1].events)
  {
    var n := |trail| - 1;
    if n > 0 {
      FrontIsTrail(cfg, start, trail);
      TrailIsRun(cfg, start, trail[..n]);
      LogLast(cfg, start, trail[n - 1], trail[n].events[|trail[n].events| - 1]);
    }
  }

  /** The record of a run, read off the machine. */
  ghost function LogOf(cfg: DhcpConfig, start: State, es: seq<Event>): Log
    requires |cfg.dns| <= 63
  {
    Log(es, Exec(cfg, start, es), External(es), Replies(cfg, start, es), SaveOutcomes(cfg, start, es),
        BenignRun(cfg, start, es))
  }

  lemma LogLast(cfg: DhcpConfig, start: State, log: Log, e: Event)
    requires |cfg.dns| <= 63 && log == LogOf(cfg, start, log.events)
    ensures Extend(cfg, log, e) == LogOf(cfg, start, log.events + [e])
  {
    ExecLast(cfg, start, log.events, e);
    ExternalLast(log.events, e);
    RepliesLast(cfg, start, log.events, e);
    SaveOutcomesLast(cfg, start, log.events, e);
    BenignLast(cfg, start, log.events, e);
  }

  lemma BenignLast(cfg: DhcpConfig, s: State, es: seq<Event>, e: Event)
    ensures BenignRun(cfg, s, es + [e]) <==> BenignRun(cfg, s, es) && Benign(Exec(cfg, s, es), e)
  {
    ExecConcat(cfg, s, es, [e]);
    assert [e][1..] == [];
  }

  /** From memory `m0` and record `log0`, these inputs led to memory `m` and record `log`. */
  ghost predicate Progress(turn: (Memory, Input) --> Turn, m0: Memory, log0: Log, inputs: seq<Input>,
                           outcomes: seq<Option<Datagram>>, m: Memory, log: Log)
    requires forall x, i :: turn.requires(x, i)
  {
    var tally := Fold(turn, m0, inputs);
    && m == tally.memory && outcomes == tally.outcomes
    && log.saves == log0.saves + tally.saves
    && log.taken == log0.taken + Scripts(inputs)
    && log.sent == log0.sent + Sends(outcomes)
  }

  lemma ProgressStep(turn: (Memory, Input) --> Turn, m0: Memory, log0: Log, all: seq<Input>, n: nat,
                     outcomes: seq<Option<Datagram>>, m: Memory, log: Log, t: Turn, m': Memory, log': Log)
    requires forall x, i :: turn.requires(x, i)
    requires n < |all| && t == turn(m, all[n]) && m' == t.memory
    requires Progress(turn, m0, log0, all[..n], outcomes, m, log)
    requires log'.saves == log.saves + t.saves
    requires log'.taken == log.taken + Script(all[n]) && log'.sent == log.sent + SendOf(t.sent)
    ensures Progress(turn, m0, log0, all[..n + 1], outcomes + [t.sent], m', log')
  {
    var inputs, input := all[..n], all[n];
    assert all[..n + 1] == inputs + [input];
    FoldLast(turn, m0, inputs, input);
    ScriptsLast(inputs, input);
    SendsLast(outcomes, t.sent);
    Regroup(log0.taken, Scripts(inputs), Script(input));
    Regroup(log0.sent, Sends(outcomes), SendOf(t.sent));
    Regroup(log0.saves, Fold(turn, m0, inputs).saves, t.saves);
  }

  lemma ProgressStart(turn: (Memory, Input) --> Turn, m0: Memory, log0: Log)
    requires forall x, i :: turn.requires(x, i)
    ensures Progress(turn, m0, log0, [], [], m0, log0)
  {
  }

  lemma Regroup<T>(a: seq<T>, b: seq<T>, c: seq<T>)
    ensures a + b + c == a + (b + c)
  {
  }

  lemma ScriptsLast(inputs: seq<Input>, input: Input)
    ensures Scripts(inputs + [input]) == Scripts(inputs) + Script(input)
  {
    assert (inputs + [input])[..|inputs|] == inputs;
  }

  lemma SendsLast(outcomes: seq<Option<Datagram>>, outcome: Option<Datagram>)
    ensures Sends(outcomes + [outcome]) == Sends(outcomes) + SendOf(outcome)
  {
    assert (outcomes + [outcome])[..|outcomes|] == outcomes;
  }

  lemma DueSweep(cfg: DhcpConfig, s: State)
    requires s.phase.Sweeping? && s.clock >= s.nextPurge
    ensures var r := Apply(cfg, s, Sweep);
            && Memory(r.store, r.nextPurge) == Checked(Memory(s.store, s.nextPurge), s.clock)
            && r.phase == (if Drops(Memory(s.store, s.nextPurge), s.clock) then Rewriting else Waiting)
            && r.file == s.file && r.clock == s.clock
  {
  }

  class Server {
    const cfg: DhcpConfig
    var store: LeaseStore
    var file: string
    var nextPurge: nat
    ghost const start: State // the machine before boot
    ghost var log: Log       // what this process has done since
    ghost var trail: seq<Log>

    ghost predicate Valid()
      reads this, store
    {
      && |cfg.dns| <= 63
      && Storable(store.byMac)
      && log.state.store == store.View() && log.state.file == file && log.state.nextPurge == nextPurge
      && !log.state.phase.Down?
      && IsTrail(cfg, start, trail) && trail[|trail| - 1] == log
    }

    /** Startup: load, sweep, arm the timer. The file is left as it was. */
    constructor (cfg: DhcpConfig, file: string, now: Instant, ghost before: State)
      requires |cfg.dns| <= 63
      requires before.phase.Down? && before.file == file && before.clock == now
      ensures Valid() && fresh(store) && this.cfg == cfg
      ensures start == before && log == Extend(cfg, Blank(before), Boot) && log.state.phase.Waiting?
    {
      this.cfg := cfg;
      var loaded := new LeaseStore.Load(file);
      var _ := loaded.PurgeExpired(now);
      this.store := loaded;
      this.file := file;
      this.nextPurge := now + PURGE_INTERVAL_SECS;
      this.start := before;
      this.log := Extend(cfg, Blank(before), Boot);
      this.trail := [Blank(before), Extend(cfg, Blank(before), Boot)];
      new;
      LoadedIsStorable(file);
      TrailGrows(cfg, before, [Blank(before)], Boot);
      assert trail == [Blank(before)] + [log];
    }

    /** The machine takes a step, and the record grows by it. */
    ghost method Note(e: Event)
      requires |cfg.dns| <= 63 && IsTrail(cfg, start, trail) && trail[|trail| - 1] == log
      modifies this`log, this`trail
      ensures log == Extend(cfg, old(log), e)
      ensures IsTrail(cfg, start, trail) && trail[|trail| - 1] == log
    {
      TrailGrows(cfg, start, trail, e);
      log := Extend(cfg, log, e);
      trail := trail + [log];
    }

    /** A step that neither saves nor sends. */
    ghost method NoteQuiet(e: Event)
      requires |cfg.dns| <= 63 && IsTrail(cfg, start, trail) && trail[|trail| - 1] == log && !e.Save? && !e.Send?
      modifies this`log, this`trail
      ensures log.state == Apply(cfg, old(log).state, e) && log.taken == old(log).taken + [e]
      ensures log.sent == old(log).sent && log.saves == old(log).saves
      ensures Benign(old(log).state, e) && old(log).smooth ==> log.smooth
      ensures IsTrail(cfg, start, trail) && trail[|trail| - 1] == log
    {
      Note(e);
    }

    /** What an iteration works on. */
    function Mem(): Memory
      reads this, store
    {
      Memory(store.View(), nextPurge)
    }

    /** Replace the file by the current leases, or fail to; either way the loop goes on. */
    method Persist(saveOk: bool)
      requires Valid() && (log.state.phase.Committing? || log.state.phase.Rewriting?)
      modifies this`file, this`log, this`trail
      ensures Valid() && log.state.clock == old(log).state.clock
      ensures log.state.phase == if old(log).state.phase.Rewriting? then Waiting else Sending(old(log).state.phase.job)
      ensures if saveOk then LoadText(file) == NormalMap(store.byMac) else file == old(file)
      ensures log.taken == old(log).taken && log.sent == old(log).sent && log.saves == old(log).saves + [saveOk]
      ensures saveOk && old(log).smooth ==> log.smooth
    {
      var out, order := store.Save();
      SavedText(order, store.byMac);
      Note(Save(order, saveOk));
      if saveOk {
        file := out;
      }
    }

    /** Decide, save if told to, then send: the save comes first, and a failed save does not stop the reply. */
    method Respond(data: seq<byte>, pkt: DhcpPacket, now: Instant, saveOk: bool) returns (sent: Option<Datagram>)
      requires Valid() && log.state.phase.Waiting? && ParsePacket(data) == Ok(pkt) && log.state.clock == now
      modifies this`file, this`log, this`trail, store
      ensures Valid() && log.state.phase.Sweeping? && log.state.clock == now
      ensures store.View() == After(cfg, old(store.View()), pkt, now)
      ensures sent == Rendered(cfg, pkt, AnswerTo(cfg, old(store.View()), pkt, now))
      ensures if Saves(cfg, old(store.View()), pkt, now) && saveOk then LoadText(file) == NormalMap(store.byMac)
              else file == old(file)
      ensures log.taken == old(log).taken + [Receive(data)] && log.sent == old(log).sent + SendOf(sent)
      ensures log.saves == old(log).saves + if Saves(cfg, old(store.View()), pkt, now) then [saveOk] else []
      ensures saveOk && old(log).smooth ==> log.smooth
    {
      var d := DecideNow(data, pkt, now);
      sent := d.reply;
      if d.saveLeases {
        Persist(saveOk);
      }
      Finish();
    }

    /** The send step puts the decided reply on the wire. */
    ghost method Finish()
      requires Valid() && log.state.phase.Sending?
      modifies this`log, this`trail
      ensures Valid() && log.state.phase.Sweeping? && log.state.clock == old(log).state.clock
      ensures log.taken == old(log).taken && log.saves == old(log).saves
      ensures var job := old(log).state.phase.job;
              log.sent == old(log).sent + SendOf(Rendered(cfg, job.pkt, job.answer))
      ensures old(log).smooth ==> log.smooth
    {
      Note(Send);
    }

    method DecideNow(data: seq<byte>, pkt: DhcpPacket, now: Instant) returns (d: Decision)
      requires Valid() && log.state.phase.Waiting? && ParsePacket(data) == Ok(pkt) && log.state.clock == now
      modifies this`log, this`trail, store
      ensures Valid() && log.state.clock == now
      ensures store.View() == After(cfg, old(store.View()), pkt, now)
      ensures d.reply == Rendered(cfg, pkt, AnswerTo(cfg, old(store.View()), pkt, now))
      ensures d.saveLeases == Saves(cfg, old(store.View()), pkt, now)
      ensures var job := Job(pkt, AnswerTo(cfg, old(store.View()), pkt, now), now);
              log.state.phase == if d.saveLeases then Committing(job) else Sending(job)
      ensures log.taken == old(log).taken + [Receive(data)]
      ensures log.sent == old(log).sent && log.saves == old(log).saves
      ensures old(log).smooth ==> log.smooth
    {
      DecideKeepsStorable(cfg, log.state.store, pkt, now);
      NoteQuiet(Receive(data));
      d := Decide(cfg, store, pkt, now);
    }

    /** A malformed datagram is dropped; any other is answered as the protocol decides. */
    method Handle(data: seq<byte>, now: Instant, saveOk: bool) returns (sent: Option<Datagram>)
      requires Valid() && log.state.phase.Waiting?
      modifies this`file, this`log, this`trail, store
      ensures Valid() && log.state.phase.Sweeping? && log.state.clock == now
      ensures store.View() == Served(cfg, old(store.View()), Heard(data), now)
      ensures sent == Reply(cfg, old(store.View()), Heard(data), now)
      ensures var saves := SavesServing(cfg, old(store.View()), Heard(data), now, saveOk);
              && log.saves == old(log).saves + saves
              && if true in saves then LoadText(file) == NormalMap(store.byMac) else file == old(file)
      ensures log.taken == old(log).taken + [Tick(now), Receive(data)] && log.sent == old(log).sent + SendOf(sent)
      ensures old(log).state.clock <= now && saveOk && old(log).smooth ==> log.smooth
    {
      NoteQuiet(Tick(now));
      var pkt := ParsePacket(data);
      if pkt.Err? {
        NoteQuiet(Receive(data));
        return None;
      }
      sent := Respond(data, pkt.value, now, saveOk);
    }

    /** The purge timer: sweep when due, and rewrite the file only when a lease was dropped. */
    method CheckTimer(now: Instant, saveOk: bool)
      requires Valid() && log.state.phase.Sweeping?
      modifies this`file, this`nextPurge, this`log, this`trail, store
      ensures Valid() && log.state.phase.Waiting? && log.state.clock == now
      ensures Mem() == Checked(old(Mem()), now)
      ensures nextPurge == if now >= old(nextPurge) then now + 300 else old(nextPurge)
      ensures if Drops(old(Mem()), now) && saveOk then LoadText(file) == NormalMap(store.byMac) else file == old(file)
      ensures log.taken == old(log).taken + [Tick(now), Sweep] && log.sent == old(log).sent
      ensures log.saves == old(log).saves + SavesChecking(old(Mem()), now, saveOk)
      ensures old(log).state.clock <= now && saveOk && old(log).smooth ==> log.smooth
    {
      NoteQuiet(Tick(now));
      if now >= nextPurge {
        var rewrite := SweepNow(now);
        if rewrite {
          Persist(saveOk);
        }
      } else {
        NoteQuiet(Sweep);
      }
    }

    method SweepNow(now: Instant) returns (rewrite: bool)
      requires Valid() && log.state.phase.Sweeping? && log.state.clock == now && now >= nextPurge
      modifies this`nextPurge, this`log, this`trail, store
      ensures Valid() && log.state.clock == now
      ensures Mem() == Checked(old(Mem()), now) && rewrite == Drops(old(Mem()), now)
      ensures log.state.phase == if rewrite then Rewriting else Waiting
      ensures log.taken == old(log).taken + [Sweep] && log.sent == old(log).sent && log.saves == old(log).saves
      ensures old(log).smooth ==> log.smooth
    {
      DueSweep(cfg, log.state);
      NoteQuiet(Sweep);
      var removed := store.PurgeExpired(now);
      nextPurge := now + PURGE_INTERVAL_SECS;
      rewrite := removed.leases > 0;
    }

    /** The first half of a turn: a datagram, or a poll timeout. */
    method Serve(input: Input) returns (sent: Option<Datagram>)
      requires Valid() && log.state.phase.Waiting?
      modifies this`file, this`log, this`trail, store
      ensures Valid() && log.state.phase.Sweeping? && log.state.clock == input.receivedAt
      ensures Mem() == Memory(Served(cfg, old(Mem()).store, HeardIn(input), input.receivedAt), old(Mem()).nextPurge)
      ensures sent == Reply(cfg, old(Mem()).store, HeardIn(input), input.receivedAt)
      ensures var saves := SavesServing(cfg, old(Mem()).store, HeardIn(input), input.receivedAt, input.saveOk);
              && log.saves == old(log).saves + saves
              && if true in saves then LoadText(file) == NormalMap(store.byMac) else file == old(file)
      ensures log.taken == old(log).taken + Script(input)[..2] && log.sent == old(log).sent + SendOf(sent)
      ensures old(log).state.clock <= input.receivedAt && input.saveOk && old(log).smooth ==> log.smooth
    {
      if input.datagram.Some? {
        sent := Handle(input.datagram.value, input.receivedAt, input.saveOk);
      } else {
        sent := None;
        NoteQuiet(Tick(input.receivedAt));
        NoteQuiet(Timeout);
      }
    }

    /** One turn of the loop; a file it does not replace stays as it was. */
    method Iterate(input: Input) returns (sent: Option<Datagram>)
      requires Valid() && log.state.phase.Waiting?
      modifies this`file, this`nextPurge, this`log, this`trail, store
      ensures Valid() && log.state.phase.Waiting? && log.state.clock == input.checkedAt
      ensures var turn := TurnOf(cfg, old(Mem()), input);
              Mem() == turn.memory && sent == turn.sent && log.saves == old(log).saves + turn.saves
      ensures true !in TurnOf(cfg, old(Mem()), input).saves ==> file == old(file)
      ensures log.taken == old(log).taken + Script(input) && log.sent == old(log).sent + SendOf(sent)
      ensures SteadyTurn(old(log).state.clock, input) && old(log).smooth ==> log.smooth
    {
      ghost var turn := TurnOf(cfg, Mem(), input);
      sent := Serve(input);
      ghost var served := log;
      CheckTimer(input.checkedAt, input.resaveOk);
      assert Mem() == turn.memory && sent == turn.sent;
      assert log.taken == served.taken + Script(input)[2..];
    }

    /**
     The loop until shutdown. Whatever the inputs, it takes in exactly their events, in order, sends exactly what the
     turns have to send, and saves exactly when they have to, with the outcomes the inputs name.
     */
    method Loop(inputs: seq<Input>, ghost turn: (Memory, Input) --> Turn) returns (outcomes: seq<Option<Datagram>>)
      requires Valid() && log.state.phase.Waiting? && Computes(cfg, turn)
      modifies this`file, this`nextPurge, this`log, this`trail, store
      ensures Valid() && log.state.phase.Waiting?
      ensures Progress(turn, old(Mem()), old(log), inputs, outcomes, Mem(), log)
      ensures Steady(old(log).state.clock, inputs) && old(log).smooth ==> log.smooth
    {
      outcomes := [];
      ProgressStart(turn, Mem(), log);
      assert inputs[..0] == [];
      for i := 0 to |inputs|
        invariant Valid() && log.state.phase.Waiting?
        invariant Progress(turn, old(Mem()), old(log), inputs[..i], outcomes, Mem(), log)
        invariant log.state.clock == ClockBefore(old(log).state.clock, inputs, i)
        invariant Steady(old(log).state.clock, inputs) && old(log).smooth ==> log.smooth
      {
        ghost var m, log0 := Mem(), log;
        var sent := Iterate(inputs[i]);
        ProgressStep(turn, old(Mem()), old(log), inputs, i, outcomes, m, log0, TurnOf(cfg, m, inputs[i]), Mem(), log);
        outcomes := outcomes + [sent];
      }
      assert inputs[..|inputs|] == inputs;
    }

    /** The daemon's run; with forward inputs one booted in a safe state, its file agreeing, ends in one. */
    method Run(inputs: seq<Input>) returns (outcomes: seq<Option<Datagram>>)
      requires Valid() && log.state.phase.Waiting?
      modifies this`file, this`nextPurge, this`log, this`trail, store
      ensures Valid() && log.state.phase.Waiting?
      ensures Progress(Turns(cfg), old(Mem()), old(log), inputs, outcomes, Mem(), log)
      ensures Steady(old(log).state.clock, inputs) && old(log).smooth ==> log.smooth
      ensures log == LogOf(cfg, start, log.events)
      ensures Exclusivity.Safe(cfg, start, true) && log.smooth ==> Exclusivity.Safe(cfg, log.state, true)
      ensures Recovery.Agrees(start) && log.smooth ==> Recovery.Agrees(log.state)
    {
      outcomes := Loop(inputs, Turns(cfg));
      Settle();
    }

    /** What the record of a run says about the machine, and about exclusivity. */
    lemma Settle()
      requires Valid()
      ensures log == LogOf(cfg, start, log.events)
      ensures Exclusivity.Safe(cfg, start, true) && log.smooth ==> Exclusivity.Safe(cfg, log.state, true)
      ensures Recovery.Agrees(start) && log.smooth ==> Recovery.Agrees(log.state)
    {
      TrailIsRun(cfg, start, trail);
      if Exclusivity.Safe(cfg, start, true) && log.smooth {
        Exclusivity.RunKeepsSafe(cfg, start, log.events, true);
      }
      if Recovery.Agrees(start) && log.smooth {
        Recovery.RunKeepsAgreement(cfg, start, log.events);
      }
    }
  }
}
