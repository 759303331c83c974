/** The broadcast protocol between the main thread and the agent threads of run-test262.c, and
    the report queue, as a step system.

    Every step is something one thread does between two points where another thread may run.
    What the threads read and write without the mutex, they read and write field by field.  A
    thread that waits on the condition variable may wake up at any time the mutex is free, so
    lost, stolen and spurious wake-ups are all covered. */
module AgentBroadcast {

  /** The shared buffer, its size and the number that a broadcast hands out. */
  datatype Data = Data(buffer: int, size: int, value: int)

  datatype Field = Buffer | Size | Value

  function Get(d: Data, f: Field): int {
    match f
    case Buffer => d.buffer
    case Size => d.size
    case Value => d.value
  }

  function Put(d: Data, f: Field, x: int): Data {
    match f
    case Buffer => d.(buffer := x)
    case Size => d.(size := x)
    case Value => d.(value := x)
  }

  /** One call of js_agent_broadcast: its data and the agents in the list, lo <= id < hi. */
  datatype Round = Round(data: Data, lo: nat, hi: nat)

  /** An agent clears its flag: the round that is under way and the data it then finds. */
  datatype Delivery = Delivery(round: int, data: Data)

  datatype AgentPc =
    | Running                          // evaluates its script or a pending job
    | Holding                          // owns the mutex, tests its flag
    | Sleeping                         // in pthread_cond_wait
    | Reading(round: int, got: Data, done: set<Field>) // flag cleared, mutex released, fetches the arguments
    | Calling(round: int, got: Data)   // runs the callback with the arguments it read
    | Finished

  datatype Agent = Agent(pc: AgentPc, func: bool, pending: bool, data: Data, log: seq<Delivery>)

  /** What main writes next while it fills in one agent. */
  datatype Stage = Flag | Fields(f: Field)

  datatype MainPc =
    | Idle
    | Locking(data: Data)
    | Filling(data: Data, next: nat, stage: Stage) // owns the mutex, walks the agent list
    | Checking                         // owns the mutex, tests all flags
    | Blocked                          // in pthread_cond_wait
    | Freeing                          // in js_agent_free

  datatype Owner = Nobody | Main | Agents(id: nat)

  /** Agents keep their number; those below `first` are joined and freed.  `rounds`, the logs,
      `pushed` and `popped` record history. */
  datatype State = State(
    main: MainPc, lock: Owner, first: nat, agents: seq<Agent>, rounds: seq<Round>,
    queue: seq<string>, pushed: seq<string>, popped: seq<string>)

  datatype Step =
    | StartAgent
    | CallBroadcast(data: Data)
    | LockForBroadcast
    | SetFlag
    | WriteField
    | FillDone
    | SleepWhilePending
    | ReturnFromBroadcast
    | WakeMain
    | CallFree
    | JoinNext
    | FreeDone
    | Register(id: nat)
    | Finish(id: nat)
    | LockAgent(id: nat)
    | SleepAgent(id: nat)
    | WakeAgent(id: nat)
    | Take(id: nat)
    | ReadField(id: nat, f: Field)
    | ReturnFromCallback(id: nat)
    | PushReport(str: string)
    | GetReport

  const ZERO: Data := Data(0, 0, 0)

  const INIT: State := State(Idle, Nobody, 0, [], [], [], [], [])

  /** is_broadcast_pending */
  predicate IsBroadcastPending(s: State) {
    exists i :: s.first <= i < |s.agents| && s.agents[i].pending
  }

  /** The buffer and its size are fetched in an order C leaves open, the number after both. */
  predicate MayRead(a: Agent, f: Field) {
    a.pc.Reading? && f !in a.pc.done && (f == Value ==> Buffer in a.pc.done && Size in a.pc.done)
  }

  predicate Enabled(s: State, e: Step) {
    match e
    case StartAgent => s.main.Idle?
    case CallBroadcast(_) => s.main.Idle?
    case LockForBroadcast => s.main.Locking? && s.lock.Nobody?
    case SetFlag => s.main.Filling? && s.main.next < |s.agents| && s.main.stage.Flag?
    case WriteField => s.main.Filling? && s.main.next < |s.agents| && s.main.stage.Fields?
    case FillDone => s.main.Filling? && s.main.next >= |s.agents|
    case SleepWhilePending => s.main.Checking? && IsBroadcastPending(s)
    case ReturnFromBroadcast => s.main.Checking? && !IsBroadcastPending(s)
    case WakeMain => s.main.Blocked? && s.lock.Nobody?
    case CallFree => s.main.Idle?
    case JoinNext => s.main.Freeing? && s.first < |s.agents| && s.agents[s.first].pc.Finished?
    case FreeDone => s.main.Freeing? && s.first >= |s.agents|
    case Register(id) => id < |s.agents| && (s.agents[id].pc.Running? || s.agents[id].pc.Calling?)
    case Finish(id) => id < |s.agents| && s.agents[id].pc.Running?
    case LockAgent(id) => id < |s.agents| && s.agents[id].pc.Running? && s.agents[id].func && s.lock.Nobody?
    case SleepAgent(id) => id < |s.agents| && s.agents[id].pc.Holding? && !s.agents[id].pending
    case WakeAgent(id) => id < |s.agents| && s.agents[id].pc.Sleeping? && s.lock.Nobody?
    case Take(id) => id < |s.agents| && s.agents[id].pc.Holding? && s.agents[id].pending
    case ReadField(id, f) => id < |s.agents| && MayRead(s.agents[id], f)
    case ReturnFromCallback(id) => id < |s.agents| && s.agents[id].pc.Calling?
    case PushReport(_) => true
    case GetReport => true
  }

  /** Where main goes after it has written field f of agent k. */
  function AfterField(d: Data, k: nat, f: Field): MainPc {
    match f
    case Buffer => Filling(d, k, Fields(Size))
    case Size => Filling(d, k, Fields(Value))
    case Value => Filling(d, k + 1, Flag)
  }

  /** An agent fetches one argument; with the last one it calls back. */
  function Fetch(a: Agent, f: Field): AgentPc
    requires a.pc.Reading?
  {
    var got := Put(a.pc.got, f, Get(a.data, f));
    if f == Value then Calling(a.pc.round, got) else Reading(a.pc.round, got, a.pc.done + {f})
  }

  function Apply(s: State, e: Step): State
    requires Enabled(s, e)
  {
    match e
    case StartAgent => s.(agents := s.agents + [Agent(Running, false, false, ZERO, [])])
    case CallBroadcast(d) => s.(main := Locking(d))
    case LockForBroadcast =>
      s.(main := Filling(s.main.data, s.first, Flag), lock := Main,
         rounds := s.rounds + [Round(s.main.data, s.first, |s.agents|)])
    case SetFlag =>
      var k := s.main.next;
      s.(main := Filling(s.main.data, k, Fields(Buffer)), agents := s.agents[k := s.agents[k].(pending := true)])
    case WriteField =>
      var k, f := s.main.next, s.main.stage.f;
      var d := Put(s.agents[k].data, f, Get(s.main.data, f));
      s.(main := AfterField(s.main.data, k, f), agents := s.agents[k := s.agents[k].(data := d)])
    case FillDone => s.(main := Checking)
    case SleepWhilePending => s.(main := Blocked, lock := Nobody)
    case ReturnFromBroadcast => s.(main := Idle, lock := Nobody)
    case WakeMain => s.(main := Checking, lock := Main)
    case CallFree => s.(main := Freeing)
    case JoinNext => s.(first := s.first + 1)
    case FreeDone => s.(main := Idle)
    case Register(id) => s.(agents := s.agents[id := s.agents[id].(func := true)])
    case Finish(id) => s.(agents := s.agents[id := s.agents[id].(pc := Finished)])
    case LockAgent(id) => s.(agents := s.agents[id := s.agents[id].(pc := Holding)], lock := Agents(id))
    case SleepAgent(id) => s.(agents := s.agents[id := s.agents[id].(pc := Sleeping)], lock := Nobody)
    case WakeAgent(id) => s.(agents := s.agents[id := s.agents[id].(pc := Holding)], lock := Agents(id))
    case Take(id) =>
      var a, r := s.agents[id], |s.rounds| - 1;
      var log := a.log + [Delivery(r, a.data)];
      s.(agents := s.agents[id := a.(pc := Reading(r, ZERO, {}), pending := false, log := log)], lock := Nobody)
    case ReadField(id, f) => s.(agents := s.agents[id := s.agents[id].(pc := Fetch(s.agents[id], f))])
    case ReturnFromCallback(id) => s.(agents := s.agents[id := s.agents[id].(pc := Running, func := false)])
    case PushReport(m) => s.(queue := s.queue + [m], pushed := s.pushed + [m])
    case GetReport =>
      if s.queue == [] then s else s.(queue := s.queue[1..], popped := s.popped + [s.queue[0]])
  }

  /** A run is a list of steps each of which is enabled where it is taken. */
  ghost predicate ValidRun(run: seq<Step>)
    decreases |run|, 0
  {
    run == [] || (ValidRun(run[..|run| - 1]) && Enabled(After(run[..|run| - 1]), run[|run| - 1]))
  }

  ghost function After(run: seq<Step>): State
    requires ValidRun(run)
    decreases |run|, 1
  {
    if run == [] then INIT else Apply(After(run[..|run| - 1]), run[|run| - 1])
  }

  // ----- What the protocol keeps -----

  /** One delivery per round whose list holds the agent, in order, with that round's data. */
  ghost function Deliveries(rounds: seq<Round>, id: nat): seq<Delivery> {
    if rounds == [] then []
    else
      var r := rounds[|rounds| - 1];
      Deliveries(rounds[..|rounds| - 1], id) + if r.lo <= id < r.hi then [Delivery(|rounds| - 1, r.data)] else []
  }

  ghost predicate MainOwnsLock(m: MainPc) {
    m.Filling? || m.Checking?
  }

  ghost predicate InBroadcast(m: MainPc) {
    m.Filling? || m.Checking? || m.Blocked?
  }

  /** Main has set the flag of agent id in the round under way. */
  ghost predicate FlagWritten(m: MainPc, id: nat)
    requires m.Filling?
  {
    id < m.next || (id == m.next && m.stage.Fields?)
  }

  /** The round under way has not reached the agent yet. */
  ghost predicate Outstanding(s: State, id: nat)
    requires id < |s.agents|
  {
    s.agents[id].pending || (s.main.Filling? && s.main.next <= id)
  }

  predicate IsBefore(f: Field, g: Field) {
    (f == Buffer && g != Buffer) || (f == Size && g == Value)
  }

  /** Main has already written field f of agent id in a round the agent has not taken. */
  predicate Overwritten(s: State, id: nat, f: Field)
    requires id < |s.agents|
  {
    && s.agents[id].pending
    && (s.main.Filling? && s.main.next == id && s.main.stage.Fields? ==> IsBefore(f, s.main.stage.f))
  }

  ghost predicate LockInvariant(s: State) {
    && (s.lock == Main <==> MainOwnsLock(s.main))
    && (forall i :: 0 <= i < |s.agents| ==> (s.agents[i].pc.Holding? <==> s.lock == Agents(i)))
    && (s.lock.Agents? ==> s.lock.id < |s.agents|)
  }

  ghost predicate RoundInvariant(s: State) {
    && s.first <= |s.agents|
    && (forall r :: r in s.rounds ==> r.hi <= |s.agents|)
    && (InBroadcast(s.main) ==>
          s.rounds != [] && s.rounds[|s.rounds| - 1].lo == s.first && s.rounds[|s.rounds| - 1].hi == |s.agents|)
    && (s.main.Filling? ==>
          && s.first <= s.main.next <= |s.agents| && s.rounds[|s.rounds| - 1].data == s.main.data
          && (s.main.next == |s.agents| ==> s.main.stage.Flag?))
  }

  ghost predicate FlagInvariant(s: State, i: nat)
    requires i < |s.agents|
  {
    var a, n := s.agents[i], |s.rounds|;
    && (i < s.first ==> a.pc.Finished?)
    && (a.pending ==> InBroadcast(s.main) && s.first <= i && s.rounds != [])
    && (s.main.Filling? && s.first <= i ==> (a.pending <==> FlagWritten(s.main, i)))
    && (if Outstanding(s, i) && s.rounds != [] then a.log == Deliveries(s.rounds[..n - 1], i)
        else a.log == Deliveries(s.rounds, i))
  }

  ghost predicate AtWork(pc: AgentPc) {
    pc.Reading? || pc.Calling?
  }

  /** An agent at work took the round under way or, if that has not reached it yet, the one before. */
  ghost predicate WorkInvariant(s: State, i: nat)
    requires i < |s.agents|
  {
    var a, n := s.agents[i], |s.rounds|;
    AtWork(a.pc) ==>
      && 0 <= a.pc.round == (if Outstanding(s, i) then n - 2 else n - 1)
      && a.log != [] && a.log[|a.log| - 1] == Delivery(a.pc.round, s.rounds[a.pc.round].data)
  }

  /** Argument f is the one of the given round or of the next one. */
  ghost predicate FromRound(rounds: seq<Round>, round: int, got: Data, f: Field) {
    && 0 <= round < |rounds|
    && (Get(got, f) == Get(rounds[round].data, f) ||
        (round + 1 < |rounds| && Get(got, f) == Get(rounds[round + 1].data, f)))
  }

  ghost predicate DataInvariant(s: State, i: nat)
    requires i < |s.agents|
  {
    var a, n := s.agents[i], |s.rounds|;
    && (forall f :: Overwritten(s, i, f) ==> n > 0 && Get(a.data, f) == Get(s.rounds[n - 1].data, f))
    && (forall f :: a.pc.Reading? && !Overwritten(s, i, f) ==>
          0 <= a.pc.round < n && Get(a.data, f) == Get(s.rounds[a.pc.round].data, f))
    && (forall f :: a.pc.Calling? || (a.pc.Reading? && f in a.pc.done) ==> FromRound(s.rounds, a.pc.round, a.pc.got, f))
  }

  ghost predicate AgentInvariant(s: State, i: nat)
    requires i < |s.agents|
  {
    FlagInvariant(s, i) && WorkInvariant(s, i) && DataInvariant(s, i)
  }

  ghost predicate Inv(s: State) {
    && LockInvariant(s)
    && RoundInvariant(s)
    && (forall i :: 0 <= i < |s.agents| ==> AgentInvariant(s, i))
    && s.pushed == s.popped + s.queue
  }

  lemma DeliveriesGrow(rounds: seq<Round>, r: Round, id: nat)
    ensures Deliveries(rounds + [r], id) ==
              Deliveries(rounds, id) + if r.lo <= id < r.hi then [Delivery(|rounds|, r.data)] else []
  {
  }

  /** Agents that were not started yet have no deliveries. */
  lemma {:induction false} NoDeliveries(rounds: seq<Round>, id: nat)
    requires forall r :: r in rounds ==> r.hi <= id
    ensures Deliveries(rounds, id) == []
  {
    if rounds != [] {
      NoDeliveries(rounds[..|rounds| - 1], id);
    }
  }

  /** Only agent id changed, and the shared part of the state in no way the others notice. */
  lemma OthersUnaffected(s: State, t: State, id: nat)
    requires Inv(s) && id < |s.agents|
    requires |t.agents| == |s.agents| && t.agents == s.agents[id := t.agents[id]]
    requires t.main == s.main && t.first == s.first && t.rounds == s.rounds
    requires AgentInvariant(t, id)
    ensures forall i :: 0 <= i < |t.agents| ==> AgentInvariant(t, i)
  {
    forall i | 0 <= i < |t.agents| ensures AgentInvariant(t, i) {
      if i != id {
        assert t.agents[i] == s.agents[i] && AgentInvariant(s, i);
      }
    }
  }

  lemma TakeKeepsInv(s: State, id: nat)
    requires Inv(s) && Enabled(s, Take(id))
    ensures Inv(Apply(s, Take(id)))
  {
    assert AgentInvariant(s, id);
    TakeFindsData(s, id);
    OthersUnaffected(s, Apply(s, Take(id)), id);
  }

  /** Under the mutex a set flag means that all fields are written. */
  lemma TakeFindsData(s: State, id: nat)
    requires Inv(s) && Enabled(s, Take(id))
    ensures s.rounds != [] && s.agents[id].data == s.rounds[|s.rounds| - 1].data && InBroadcast(s.main)
  {
    assert AgentInvariant(s, id);
    hide Deliveries;
    var d, r := s.agents[id].data, s.rounds[|s.rounds| - 1].data;
    assert Overwritten(s, id, Buffer) && Overwritten(s, id, Size) && Overwritten(s, id, Value);
    assert d.buffer == Get(d, Buffer) == Get(r, Buffer) && d.size == Get(d, Size) == Get(r, Size);
    assert d.value == Get(d, Value) == Get(r, Value);
  }

  lemma ReadFieldKeepsInv(s: State, id: nat, f: Field)
    requires Inv(s) && Enabled(s, ReadField(id, f))
    ensures Inv(Apply(s, ReadField(id, f)))
  {
    hide Deliveries;
    var t := Apply(s, ReadField(id, f));
    assert AgentInvariant(s, id);
    assert Overwritten(t, id, f) <==> Overwritten(s, id, f);
    OthersUnaffected(s, t, id);
  }

  lemma ReturnKeepsInv(s: State, id: nat)
    requires Inv(s) && Enabled(s, ReturnFromCallback(id))
    ensures Inv(Apply(s, ReturnFromCallback(id)))
  {
    hide Deliveries, FromRound;
    var t := Apply(s, ReturnFromCallback(id));
    assert AgentInvariant(s, id);
    OthersUnaffected(s, t, id);
  }

  lemma ScriptStepKeepsInv(s: State, e: Step)
    requires Inv(s) && Enabled(s, e) && (e.Register? || e.Finish?)
    ensures Inv(Apply(s, e))
  {
    hide Deliveries, FromRound;
    var t := Apply(s, e);
    assert AgentInvariant(s, e.id);
    OthersUnaffected(s, t, e.id);
  }

  lemma MutexStepKeepsInv(s: State, e: Step)
    requires Inv(s) && Enabled(s, e) && (e.LockAgent? || e.SleepAgent? || e.WakeAgent?)
    ensures Inv(Apply(s, e))
  {
    hide Deliveries, FromRound;
    var t := Apply(s, e);
    assert AgentInvariant(s, e.id);
    OthersUnaffected(s, t, e.id);
  }

  lemma StartKeepsInv(s: State)
    requires Inv(s) && Enabled(s, StartAgent)
    ensures Inv(Apply(s, StartAgent))
  {
    NoDeliveries(s.rounds, |s.agents|);
    var t := Apply(s, StartAgent);
    forall i | 0 <= i < |t.agents| ensures AgentInvariant(t, i) {
      assert i < |s.agents| ==> t.agents[i] == s.agents[i] && AgentInvariant(s, i);
    }
  }

  lemma LockForBroadcastKeepsInv(s: State)
    requires Inv(s) && Enabled(s, LockForBroadcast)
    ensures Inv(Apply(s, LockForBroadcast))
  {
    hide Deliveries;
    var t := Apply(s, LockForBroadcast);
    assert t.rounds[..|t.rounds| - 1] == s.rounds;
    forall i | 0 <= i < |t.agents| ensures AgentInvariant(t, i) {
      assert AgentInvariant(s, i);
      DeliveriesGrow(s.rounds, t.rounds[|s.rounds|], i);
      assert forall f :: !Overwritten(t, i, f) && !Overwritten(s, i, f);
      var a := s.agents[i];
      forall f | a.pc.Calling? || (a.pc.Reading? && f in a.pc.done)
        ensures FromRound(t.rounds, a.pc.round, a.pc.got, f)
      {
        assert FromRound(s.rounds, a.pc.round, a.pc.got, f);
      }
    }
  }

  lemma SetFlagKeepsInv(s: State)
    requires Inv(s) && Enabled(s, SetFlag)
    ensures Inv(Apply(s, SetFlag))
  {
    hide Deliveries, FromRound;
    var t := Apply(s, SetFlag);
    forall i | 0 <= i < |t.agents| ensures AgentInvariant(t, i) {
      assert AgentInvariant(s, i);
      assert forall f :: Overwritten(t, i, f) <==> Overwritten(s, i, f);
    }
  }

  lemma WriteFieldKeepsInv(s: State)
    requires Inv(s) && Enabled(s, WriteField)
    ensures Inv(Apply(s, WriteField))
  {
    hide Deliveries, FromRound;
    var t := Apply(s, WriteField);
    forall i | 0 <= i < |t.agents| ensures AgentInvariant(t, i) {
      assert AgentInvariant(s, i);
      assert forall f :: Overwritten(t, i, f) <==> Overwritten(s, i, f) || (i == s.main.next && f == s.main.stage.f);
    }
  }

  lemma MainStepKeepsInv(s: State, e: Step)
    requires Inv(s) && Enabled(s, e)
    requires e.CallBroadcast? || e.FillDone? || e.SleepWhilePending? || e.ReturnFromBroadcast? || e.WakeMain?
    ensures Inv(Apply(s, e))
  {
    hide Deliveries, FromRound;
    var t := Apply(s, e);
    forall i | 0 <= i < |t.agents| ensures AgentInvariant(t, i) {
      assert AgentInvariant(s, i);
    }
  }

  lemma FreeStepKeepsInv(s: State, e: Step)
    requires Inv(s) && Enabled(s, e) && (e.CallFree? || e.JoinNext? || e.FreeDone?)
    ensures Inv(Apply(s, e))
  {
    hide Deliveries, FromRound;
    var t := Apply(s, e);
    forall i | 0 <= i < |t.agents| ensures AgentInvariant(t, i) {
      assert AgentInvariant(s, i);
    }
  }

  lemma ReportStepKeepsInv(s: State, e: Step)
    requires Inv(s) && Enabled(s, e) && (e.PushReport? || e.GetReport?)
    ensures Inv(Apply(s, e))
  {
    hide Deliveries, FromRound;
    var t := Apply(s, e);
    forall i | 0 <= i < |t.agents| ensures AgentInvariant(t, i) {
      assert AgentInvariant(s, i);
    }
  }

  lemma StepKeepsInv(s: State, e: Step)
    requires Inv(s) && Enabled(s, e)
    ensures Inv(Apply(s, e))
  {
    match e
    case StartAgent => StartKeepsInv(s);
    case LockForBroadcast => LockForBroadcastKeepsInv(s);
    case SetFlag => SetFlagKeepsInv(s);
    case WriteField => WriteFieldKeepsInv(s);
    case Register(_) => ScriptStepKeepsInv(s, e);
    case Finish(_) => ScriptStepKeepsInv(s, e);
    case LockAgent(_) => MutexStepKeepsInv(s, e);
    case SleepAgent(_) => MutexStepKeepsInv(s, e);
    case WakeAgent(_) => MutexStepKeepsInv(s, e);
    case Take(id) => TakeKeepsInv(s, id);
    case ReadField(id, f) => ReadFieldKeepsInv(s, id, f);
    case ReturnFromCallback(id) => ReturnKeepsInv(s, id);
    case CallBroadcast(_) => MainStepKeepsInv(s, e);
    case FillDone => MainStepKeepsInv(s, e);
    case SleepWhilePending => MainStepKeepsInv(s, e);
    case ReturnFromBroadcast => MainStepKeepsInv(s, e);
    case WakeMain => MainStepKeepsInv(s, e);
    case PushReport(_) => ReportStepKeepsInv(s, e);
    case GetReport => ReportStepKeepsInv(s, e);
    case _ => FreeStepKeepsInv(s, e);
  }

  lemma {:induction false} EveryRunKeepsInv(run: seq<Step>)
    requires ValidRun(run)
    ensures Inv(After(run))
    decreases |run|
  {
    if run != [] {
      EveryRunKeepsInv(run[..|run| - 1]);
      StepKeepsInv(After(run[..|run| - 1]), run[|run| - 1]);
    }
  }

  // ----- What every run guarantees -----

  /** Outside a broadcast no agent has its flag set. */
  lemma NothingPendingOutsideBroadcast(run: seq<Step>)
    requires ValidRun(run) && !InBroadcast(After(run).main)
    ensures forall i :: 0 <= i < |After(run).agents| ==> !After(run).agents[i].pending
  {
    EveryRunKeepsInv(run);
    forall i | 0 <= i < |After(run).agents| ensures !After(run).agents[i].pending {
      assert AgentInvariant(After(run), i);
    }
  }

  /** At most one thread is inside a critical section of agent_mutex. */
  lemma MutualExclusion(run: seq<Step>, i: nat, j: nat)
    requires ValidRun(run)
    requires i < |After(run).agents| && j < |After(run).agents| && After(run).agents[i].pc.Holding?
    ensures !MainOwnsLock(After(run).main)
    ensures After(run).agents[j].pc.Holding? ==> i == j
  {
    EveryRunKeepsInv(run);
  }

  /** How often a log mentions a round. */
  ghost function CountRound(log: seq<Delivery>, round: int): nat {
    if log == [] then 0
    else CountRound(log[..|log| - 1], round) + if log[|log| - 1].round == round then 1 else 0
  }

  ghost predicate Listed(rounds: seq<Round>, round: int, id: nat) {
    0 <= round < |rounds| && rounds[round].lo <= id < rounds[round].hi
  }

  lemma CountAfterAppend(log: seq<Delivery>, d: Delivery, round: int)
    ensures CountRound(log + [d], round) == CountRound(log, round) + if d.round == round then 1 else 0
  {
  }

  lemma {:induction false} DeliveredOncePerRound(rounds: seq<Round>, id: nat, round: int)
    ensures CountRound(Deliveries(rounds, id), round) == if Listed(rounds, round, id) then 1 else 0
  {
    if rounds != [] {
      hide CountRound;
      var n := |rounds| - 1;
      var init, r := rounds[..n], rounds[n];
      DeliveredOncePerRound(init, id, round);
      CountAfterAppend(Deliveries(init, id), Delivery(n, r.data), round);
      assert Listed(init, round, id) <==> round != n && Listed(rounds, round, id);
      assert Deliveries(rounds, id) ==
             if r.lo <= id < r.hi then Deliveries(init, id) + [Delivery(n, r.data)] else Deliveries(init, id);
      hide Deliveries;
    }
  }

  /** A log in round order whose entries carry their round's data. */
  ghost predicate Faithful(log: seq<Delivery>, rounds: seq<Round>) {
    && (forall k :: 0 <= k < |log| ==> 0 <= log[k].round < |rounds| && log[k].data == rounds[log[k].round].data)
    && (forall k, l :: 0 <= k < l < |log| ==> log[k].round < log[l].round)
  }

  lemma {:induction false} DeliveriesAreFaithful(rounds: seq<Round>, id: nat)
    ensures Faithful(Deliveries(rounds, id), rounds)
  {
    if rounds != [] {
      var n := |rounds| - 1;
      DeliveriesAreFaithful(rounds[..n], id);
      FaithfulGrows(Deliveries(rounds[..n], id), rounds);
    }
  }

  lemma FaithfulGrows(log: seq<Delivery>, rounds: seq<Round>)
    requires rounds != [] && Faithful(log, rounds[..|rounds| - 1])
    ensures Faithful(log, rounds)
    ensures Faithful(log + [Delivery(|rounds| - 1, rounds[|rounds| - 1].data)], rounds)
  {
  }

  /** Whenever main is not inside a broadcast, every agent has taken every round whose list held
      it exactly once, in order, and found that round's data; it has taken no other round. */
  lemma EveryRoundTakenOnce(run: seq<Step>, id: nat, round: int)
    requires ValidRun(run) && !InBroadcast(After(run).main) && id < |After(run).agents|
    ensures var s, log := After(run), After(run).agents[id].log;
            && CountRound(log, round) == (if Listed(s.rounds, round, id) then 1 else 0)
            && Faithful(log, s.rounds)
            && ((exists k :: 0 <= k < |log| && log[k].round == round) <==>
                  0 <= round < |s.rounds| && s.rounds[round].lo <= id < s.rounds[round].hi)
            && (forall k :: 0 <= k < |log| ==>
                  0 <= log[k].round < |s.rounds| && log[k].data == s.rounds[log[k].round].data)
            && (forall k, l :: 0 <= k < l < |log| ==> log[k].round < log[l].round)
  {
    EveryRunKeepsInv(run);
    assert AgentInvariant(After(run), id);
    DeliveredOncePerRound(After(run).rounds, id, round);
    DeliveriesAreFaithful(After(run).rounds, id);
    CountedIffLogged(After(run).agents[id].log, round);
  }

  lemma {:induction false} CountedIffLogged(log: seq<Delivery>, round: int)
    ensures CountRound(log, round) > 0 <==> exists k :: 0 <= k < |log| && log[k].round == round
  {
    if log != [] {
      var n := |log| - 1;
      CountedIffLogged(log[..n], round);
      assert forall k :: 0 <= k < n ==> log[..n][k] == log[k];
    }
  }

  /** A broadcast returns only when all agents in the list have taken it. */
  lemma BroadcastReturnsAfterAllTook(run: seq<Step>, id: nat)
    requires ValidRun(run + [ReturnFromBroadcast])
    ensures var s := After(run + [ReturnFromBroadcast]);
            && s.main.Idle? && s.rounds != [] && s.lock != Main
            && s.rounds[|s.rounds| - 1].lo == s.first && s.rounds[|s.rounds| - 1].hi == |s.agents|
            && (s.first <= id < |s.agents| ==> CountRound(s.agents[id].log, |s.rounds| - 1) == 1)
  {
    assert (run + [ReturnFromBroadcast])[..|run|] == run;
    EveryRunKeepsInv(run);
    if After(run).first <= id < |After(run).agents| {
      EveryRoundTakenOnce(run + [ReturnFromBroadcast], id, |After(run).rounds| - 1);
    }
  }

  /** An agent that takes a round is in its list, takes it for the first time and finds its data
      under the mutex. */
  lemma TakeFindsRound(run: seq<Step>, id: nat)
    requires ValidRun(run) && Enabled(After(run), Take(id))
    ensures var s := After(run);
            && InBroadcast(s.main) && s.lock == Agents(id) && s.rounds != []
            && s.agents[id].data == s.rounds[|s.rounds| - 1].data
            && Listed(s.rounds, |s.rounds| - 1, id)
            && CountRound(s.agents[id].log, |s.rounds| - 1) == 0
  {
    EveryRunKeepsInv(run);
    var s := After(run);
    assert AgentInvariant(s, id);
    TakeFindsData(s, id);
    DeliveredOncePerRound(s.rounds[..|s.rounds| - 1], id, |s.rounds| - 1);
  }

  /** Reports come out in the order they went in, none lost, none twice; an empty answer means
      that every report has been handed out. */
  lemma ReportsAreFifo(run: seq<Step>)
    requires ValidRun(run)
    ensures var s := After(run);
            && s.popped + s.queue == s.pushed
            && (s.queue != [] ==> Apply(s, GetReport).popped == s.popped + [s.pushed[|s.popped|]])
            && (s.queue == [] <==> s.popped == s.pushed)
            && (forall m :: Enabled(s, PushReport(m)) && Apply(s, PushReport(m)).pushed == s.pushed + [m])
  {
    hide AgentInvariant, LockInvariant, RoundInvariant, ValidRun, After;
    EveryRunKeepsInv(run);
  }

  /** The arguments are fetched one by one after the mutex is released.  The one that is fetched
      is that of the round the agent took exactly when main has not written the next broadcast's
      over it, or that broadcast has the same. */
  lemma ArgumentOfRoundIff(run: seq<Step>, id: nat, f: Field)
    requires ValidRun(run) && Enabled(After(run), ReadField(id, f))
    ensures var s, t := After(run), Apply(After(run), ReadField(id, f));
            && AtWork(t.agents[id].pc) && 0 <= s.agents[id].pc.round == t.agents[id].pc.round < |s.rounds|
            && (Get(t.agents[id].pc.got, f) == Get(s.rounds[s.agents[id].pc.round].data, f) <==>
                  !Overwritten(s, id, f) ||
                  Get(s.rounds[|s.rounds| - 1].data, f) == Get(s.rounds[s.agents[id].pc.round].data, f))
  {
    EveryRunKeepsInv(run);
    hide After, ValidRun, Deliveries, FromRound, LockInvariant, RoundInvariant;
    assert AgentInvariant(After(run), id);
  }

  /** Each argument of a callback is that of the round its agent took or of the very next one. */
  lemma ArgumentsAreOfTwoRounds(run: seq<Step>, id: nat, f: Field)
    requires ValidRun(run) && id < |After(run).agents| && After(run).agents[id].pc.Calling?
    ensures var rounds, pc := After(run).rounds, After(run).agents[id].pc;
            && 0 <= pc.round < |rounds|
            && (Get(pc.got, f) == Get(rounds[pc.round].data, f) ||
                (pc.round + 1 < |rounds| && Get(pc.got, f) == Get(rounds[pc.round + 1].data, f)))
  {
    hide After, ValidRun, Deliveries, LockInvariant, RoundInvariant, FlagInvariant, WorkInvariant, Get;
    EveryRunKeepsInv(run);
    assert AgentInvariant(After(run), id);
    assert FromRound(After(run).rounds, After(run).agents[id].pc.round, After(run).agents[id].pc.got, f);
  }

  lemma Continue(run: seq<Step>, s: State, e: Step, t: State) returns (run': seq<Step>)
    requires ValidRun(run) && After(run) == s && Enabled(s, e) && Apply(s, e) == t
    ensures ValidRun(run') && After(run') == t
  {
    run' := run + [e];
    assert run'[..|run|] == run;
  }

  lemma EmptyRun()
    ensures ValidRun([]) && After([]) == INIT
  {
  }

  /** One registered agent waits; main has locked the mutex for its first broadcast. */
  lemma FirstBroadcastBegins(d: Data) returns (run: seq<Step>)
    ensures ValidRun(run)
    ensures After(run) ==
              State(Filling(d, 0, Flag), Main, 0, [Agent(Running, true, false, ZERO, [])], [Round(d, 0, 1)], [], [], [])
  {
    hide ValidRun, After;
    var a := [Agent(Running, true, false, ZERO, [])];
    var s0, s1 := INIT.(agents := [Agent(Running, false, false, ZERO, [])]), INIT.(agents := a);
    run := [];
    assert ValidRun(run) && After(run) == INIT by { EmptyRun(); }
    run := Continue(run, INIT, StartAgent, s0);
    run := Continue(run, s0, Register(0), s1);
    run := Continue(run, s1, CallBroadcast(d), s1.(main := Locking(d)));
    var s2 := State(Filling(d, 0, Flag), Main, 0, a, [Round(d, 0, 1)], [], [], []);
    run := Continue(run, s1.(main := Locking(d)), LockForBroadcast, s2);
  }

  /** Main fills in its only agent, up to the number. */
  lemma FillUpToValue(run: seq<Step>, s: State, a: Agent, d: Data) returns (run': seq<Step>)
    requires ValidRun(run) && After(run) == s && s.main == Filling(d, 0, Flag) && s.agents == [a]
    ensures ValidRun(run')
    ensures After(run') == s.(main := Filling(d, 0, Fields(Value)),
                              agents := [a.(pending := true, data := Data(d.buffer, d.size, a.data.value))])
  {
    hide ValidRun, After;
    var b := a.(pending := true);
    var s1 := s.(main := Filling(d, 0, Fields(Buffer)), agents := [b]);
    var s2 := s.(main := Filling(d, 0, Fields(Size)), agents := [b.(data := b.data.(buffer := d.buffer))]);
    var e := b.data.(buffer := d.buffer, size := d.size);
    run' := Continue(run, s, SetFlag, s1);
    run' := Continue(run', s1, WriteField, s2);
    run' := Continue(run', s2, WriteField, s.(main := Filling(d, 0, Fields(Value)), agents := [b.(data := e)]));
    assert e == Data(d.buffer, d.size, a.data.value);
  }

  lemma FillValue(run: seq<Step>, s: State, a: Agent, d: Data) returns (run': seq<Step>)
    requires ValidRun(run) && After(run) == s && s.main == Filling(d, 0, Fields(Value)) && s.agents == [a]
    requires a.data.buffer == d.buffer && a.data.size == d.size
    ensures ValidRun(run') && After(run') == s.(main := Filling(d, 1, Flag), agents := [a.(data := d)])
  {
    hide ValidRun, After;
    assert Put(a.data, Value, d.value) == d;
    run' := Continue(run, s, WriteField, s.(main := Filling(d, 1, Flag), agents := [a.(data := d)]));
  }

  /** Main has filled in its only agent and sleeps. */
  lemma BroadcastSent(d: Data) returns (run: seq<Step>)
    ensures ValidRun(run)
    ensures After(run) ==
              State(Blocked, Nobody, 0, [Agent(Running, true, true, d, [])], [Round(d, 0, 1)], [], [], [])
  {
    hide ValidRun, After;
    run := FirstBroadcastBegins(d);
    var a := Agent(Running, true, false, ZERO, []);
    var s := State(Filling(d, 0, Flag), Main, 0, [a], [Round(d, 0, 1)], [], [], []);
    run := FillUpToValue(run, s, a, d);
    var b := a.(pending := true, data := Data(d.buffer, d.size, 0));
    run := FillValue(run, s.(main := Filling(d, 0, Fields(Value)), agents := [b]), b, d);
    var t := s.(main := Checking, agents := [a.(pending := true, data := d)]);
    run := Continue(run, t.(main := Filling(d, 1, Flag)), FillDone, t);
    assert t.agents[0].pending;
    run := Continue(run, t, SleepWhilePending, t.(main := Blocked, lock := Nobody));
  }

  /** The agent took the broadcast, which returned; it has not read its arguments yet. */
  lemma OneBroadcast(d: Data) returns (run: seq<Step>)
    ensures ValidRun(run)
    ensures After(run) == State(Idle, Nobody, 0, [Agent(Reading(0, ZERO, {}), true, false, d, [Delivery(0, d)])],
                                [Round(d, 0, 1)], [], [], [])
  {
    hide ValidRun, After;
    run := BroadcastSent(d);
    var a := Agent(Running, true, true, d, []);
    var s := State(Blocked, Nobody, 0, [a], [Round(d, 0, 1)], [], [], []);
    var t := s.(lock := Agents(0), agents := [a.(pc := Holding)]);
    run := Continue(run, s, LockAgent(0), t);
    var u := s.(agents := [Agent(Reading(0, ZERO, {}), true, false, d, [Delivery(0, d)])]);
    assert a.log + [Delivery(0, d)] == [Delivery(0, d)];
    assert Apply(t, Take(0)).agents == u.agents;
    run := Continue(run, t, Take(0), u);
    run := Continue(run, u, WakeMain, u.(main := Checking, lock := Main));
    run := Continue(run, u.(main := Checking, lock := Main), ReturnFromBroadcast, u.(main := Idle));
  }

  /** The given fields from d, the others from d'. */
  function Mix(d: Data, d': Data, fields: set<Field>): Data {
    Data(if Buffer in fields then d.buffer else d'.buffer, if Size in fields then d.size else d'.size,
         if Value in fields then d.value else d'.value)
  }

  /** The only agent fetches some of the first two arguments. */
  lemma FetchSome(run: seq<Step>, s: State, a: Agent, fields: set<Field>) returns (run': seq<Step>)
    requires ValidRun(run) && After(run) == s && s.agents == [a] && a.pc.Reading?
    requires Value !in fields && fields !! a.pc.done
    ensures ValidRun(run')
    ensures After(run') ==
              s.(agents := [a.(pc := Reading(a.pc.round, Mix(a.data, a.pc.got, fields), a.pc.done + fields))])
  {
    hide ValidRun, After;
    run' := run;
    var b := a;
    if Buffer in fields {
      b := a.(pc := Fetch(a, Buffer));
      run' := Continue(run', s, ReadField(0, Buffer), s.(agents := [b]));
    }
    if Size in fields {
      var c := b.(pc := Fetch(b, Size));
      run' := Continue(run', s.(agents := [b]), ReadField(0, Size), s.(agents := [c]));
      b := c;
    }
    forall f: Field ensures f in b.pc.done <==> f in a.pc.done + fields {
      match f
      case Buffer =>
      case Size =>
      case Value =>
    }
    assert b.pc.done == a.pc.done + fields;
    assert b.pc.got == Mix(a.data, a.pc.got, fields);
  }

  /** For any choice of arguments there is a run in which the callback for the first broadcast is
      handed those arguments from the first broadcast and the others from the second. */
  lemma AnyMixIsPossible(d: Data, d': Data, first: set<Field>) returns (run: seq<Step>)
    ensures ValidRun(run)
    ensures var s := After(run);
            && |s.agents| == 1 && s.agents[0].pc == Calling(0, Mix(d, d', first))
            && s.rounds == [Round(d, 0, 1), Round(d', 0, 1)]
  {
    hide ValidRun, After, Mix;
    run := OneBroadcast(d);
    var early, late := first - {Value}, {Buffer, Size} - first;
    var a := Agent(Reading(0, ZERO, {}), true, false, d, [Delivery(0, d)]);
    var s := State(Idle, Nobody, 0, [a], [Round(d, 0, 1)], [], [], []);
    run := FetchSome(run, s, a, early);
    var b := a.(pc := Reading(0, Mix(d, ZERO, early), {} + early));
    var s1 := s.(agents := [b]);
    run := Continue(run, s1, CallBroadcast(d'), s1.(main := Locking(d')));
    var t := State(Filling(d', 0, Flag), Main, 0, [b], [Round(d, 0, 1), Round(d', 0, 1)], [], [], []);
    run := Continue(run, s1.(main := Locking(d')), LockForBroadcast, t);
    run := FillUpToValue(run, t, b, d');
    var c := b.(pending := true, data := Data(d'.buffer, d'.size, d.value));
    t := t.(main := Filling(d', 0, Fields(Value)), agents := [c]);
    if Value !in first {
      run := FillValue(run, t, c, d');
      c := c.(data := d');
      t := t.(main := Filling(d', 1, Flag), agents := [c]);
    }
    run := FetchSome(run, t, c, late);
    var e := c.(pc := Reading(0, Mix(c.data, c.pc.got, late), c.pc.done + late));
    assert Buffer in e.pc.done && Size in e.pc.done && Value !in e.pc.done;
    assert Fetch(e, Value).got == Mix(d, d', first) by { MixInParts(d, d', first, c.data, early, late); }
    run := Continue(run, t.(agents := [e]), ReadField(0, Value), t.(agents := [e.(pc := Fetch(e, Value))]));
  }

  lemma MixInParts(d: Data, d': Data, first: set<Field>, c: Data, early: set<Field>, late: set<Field>)
    requires early == first - {Value} && late == {Buffer, Size} - first
    requires c.buffer == d'.buffer && c.size == d'.size && c.value == if Value in first then d.value else d'.value
    ensures Put(Mix(c, Mix(d, ZERO, early), late), Value, c.value) == Mix(d, d', first)
  {
  }
}
