/** When a call of js_agent_broadcast can still return. */
module BroadcastReturns {
  import opened AgentBroadcast

  /** js_agent_broadcast has been called and has not returned. */
  predicate InProgress(m: MainPc) {
    m.Locking? || m.Filling? || m.Checking? || m.Blocked?
  }

  /** Agent i of the list has ended and has not taken the round. */
  ghost predicate Blocks(s: State, i: nat) {
    s.first <= i < |s.agents| && s.agents[i].pc.Finished? && (s.main.Locking? || Outstanding(s, i))
  }

  /** Some agent blocks the return. */
  ghost predicate Stuck(s: State) {
    exists i :: s.first <= i < |s.agents| && s.agents[i].pc.Finished? && (s.main.Locking? || Outstanding(s, i))
  }

  // ----- A stuck broadcast stays stuck -----

  lemma WritingKeepsBlocked(s: State, e: Step, i: nat)
    requires Inv(s) && Enabled(s, e) && Blocks(s, i)
    requires e.LockForBroadcast? || e.SetFlag? || e.WriteField? || e.FillDone?
    ensures InProgress(Apply(s, e).main) && Blocks(Apply(s, e), i)
  {
    hide Deliveries, WorkInvariant, DataInvariant, LockInvariant, Put, Get;
    assert AgentInvariant(s, i);
  }

  lemma OthersKeepBlocked(s: State, e: Step, i: nat)
    requires Inv(s) && Enabled(s, e) && InProgress(s.main) && Blocks(s, i)
    requires !e.LockForBroadcast? && !e.SetFlag? && !e.WriteField? && !e.FillDone?
    ensures InProgress(Apply(s, e).main) && Blocks(Apply(s, e), i)
  {
    hide Inv, Fetch;
  }

  lemma StuckStays(s: State, e: Step)
    requires Inv(s) && Enabled(s, e) && InProgress(s.main) && Stuck(s)
    ensures InProgress(Apply(s, e).main) && Stuck(Apply(s, e))
  {
    hide Inv, Enabled, Apply, InProgress;
    var i :| s.first <= i < |s.agents| && s.agents[i].pc.Finished? && (s.main.Locking? || Outstanding(s, i));
    assert Blocks(s, i);
    if e.LockForBroadcast? || e.SetFlag? || e.WriteField? || e.FillDone? {
      WritingKeepsBlocked(s, e, i);
    } else {
      OthersKeepBlocked(s, e, i);
    }
  }

  lemma LastStep(run: seq<Step>, e: Step)
    requires ValidRun(run + [e])
    ensures ValidRun(run) && Enabled(After(run), e) && After(run + [e]) == Apply(After(run), e)
  {
    hide Enabled, Apply;
    assert (run + [e])[..|run|] == run;
  }

  lemma {:induction false} NeverReturns(run: seq<Step>, more: seq<Step>)
    requires ValidRun(run) && InProgress(After(run).main) && Stuck(After(run)) && ValidRun(run + more)
    ensures InProgress(After(run + more).main) && Stuck(After(run + more))
    decreases |more|
  {
    hide Inv, Stuck, Enabled, Apply, InProgress, After, ValidRun;
    if more == [] {
      assert run + more == run;
    } else {
      var n := |more| - 1;
      var before := run + more[..n];
      assert run + more == before + [more[n]];
      LastStep(before, more[n]);
      NeverReturns(run, more[..n]);
      EveryRunKeepsInv(before);
      StuckStays(After(before), more[n]);
    }
  }

  // ----- Any other broadcast can be brought to its end -----

  /** Steps until a pending agent takes the round. */
  function WorkOf(a: Agent): nat {
    if !a.pending then 0
    else
      match a.pc
      case Reading(_, _, done) => if Buffer !in done then 9 else if Size !in done then 8 else 7
      case Calling(_, _) => 6
      case Running => if a.func then 4 else 5
      case Sleeping => 4
      case Holding => 3
      case Finished => 3
  }

  ghost function Work(agents: seq<Agent>): nat {
    if agents == [] then 0 else Work(agents[..|agents| - 1]) + WorkOf(agents[|agents| - 1])
  }

  lemma {:induction false} WorkOfUpdate(agents: seq<Agent>, i: nat, a: Agent)
    requires i < |agents|
    ensures Work(agents[i := a]) == Work(agents) - WorkOf(agents[i]) + WorkOf(a)
  {
    hide WorkOf;
    var n := |agents| - 1;
    if i < n {
      assert agents[i := a][..n] == agents[..n][i := a];
      WorkOfUpdate(agents[..n], i, a);
    } else {
      assert agents[i := a][..n] == agents[..n];
    }
  }

  lemma {:induction false} WorkOfPending(agents: seq<Agent>)
    ensures Work(agents) == 0 <==> forall i :: 0 <= i < |agents| ==> !agents[i].pending
  {
    if agents != [] {
      var n := |agents| - 1;
      WorkOfPending(agents[..n]);
      assert forall i :: 0 <= i < n ==> agents[..n][i] == agents[i];
    }
  }

  /** Main's way through the call, the entries it still has to write, and whose turn it is. */
  function Phase(m: MainPc): nat {
    if m.Locking? then 3 else if m.Filling? then 2 else if m.Checking? || m.Blocked? then 1 else 0
  }

  function Left(s: State): nat {
    if !s.main.Filling? || s.main.next > |s.agents| then 0
    else
      4 * (|s.agents| - s.main.next) +
      match s.main.stage
      case Flag => 3
      case Fields(f) => if f == Buffer then 2 else if f == Size then 1 else 0
  }

  ghost function Turn(s: State): nat {
    if s.main.Checking? then if Work(s.agents) > 0 then 3 else 0
    else if s.lock.Agents? && s.lock.id < |s.agents| && !s.agents[s.lock.id].pending then 2
    else 1
  }

  /** t is nearer to the return than s. */
  ghost predicate Nearer(t: State, s: State) {
    Phase(t.main) < Phase(s.main) ||
    (Phase(t.main) == Phase(s.main) &&
     (Left(t) < Left(s) ||
      (Left(t) == Left(s) &&
       (Work(t.agents) < Work(s.agents) || (Work(t.agents) == Work(s.agents) && Turn(t) < Turn(s))))))
  }

  /** The number is fetched last. */
  ghost predicate ReadsInOrder(s: State) {
    forall i :: 0 <= i < |s.agents| && s.agents[i].pc.Reading? ==> Value !in s.agents[i].pc.done
  }

  lemma StepReadsInOrder(s: State, e: Step)
    requires ReadsInOrder(s) && Enabled(s, e)
    ensures ReadsInOrder(Apply(s, e))
  {
    hide Get, Put;
  }

  lemma {:induction false} EveryRunReadsInOrder(run: seq<Step>)
    requires ValidRun(run)
    ensures ReadsInOrder(After(run))
    decreases |run|
  {
    hide Enabled, Apply, ReadsInOrder;
    if run == [] {
      NoReaders();
    } else {
      EveryRunReadsInOrder(run[..|run| - 1]);
      StepReadsInOrder(After(run[..|run| - 1]), run[|run| - 1]);
    }
  }

  lemma NoReaders()
    ensures ReadsInOrder(INIT)
  {
  }

  /** Agent id moves on without ending. */
  lemma AgentMoves(s: State, t: State, id: nat)
    requires !Stuck(s) && id < |s.agents| == |t.agents| && t.agents == s.agents[id := t.agents[id]]
    requires t.main == s.main && t.first == s.first && !t.agents[id].pc.Finished?
    ensures !Stuck(t) && Left(t) == Left(s)
    ensures Work(t.agents) == Work(s.agents) - WorkOf(s.agents[id]) + WorkOf(t.agents[id])
  {
    WorkOfUpdate(s.agents, id, t.agents[id]);
    hide Work, WorkOf, Left;
    forall i | 0 <= i < |t.agents| && i != id ensures Outstanding(t, i) <==> Outstanding(s, i) {
      assert t.agents[i] == s.agents[i];
    }
  }

  lemma FillMoves(s: State) returns (e: Step)
    requires Inv(s) && !Stuck(s) && s.main.Filling?
    ensures Enabled(s, e) && InProgress(Apply(s, e).main) && !Stuck(Apply(s, e)) && Nearer(Apply(s, e), s)
  {
    hide Deliveries, WorkInvariant, DataInvariant, FlagInvariant, Work, Turn, Put, Get;
    var k := s.main.next;
    e := if k >= |s.agents| then FillDone else if s.main.stage.Flag? then SetFlag else WriteField;
    var t := Apply(s, e);
    forall i | s.first <= i < |t.agents| && t.agents[i].pc.Finished? ensures !Outstanding(t, i) {
      assert s.agents[i].pc.Finished? && !Outstanding(s, i);
    }
  }

  lemma CheckMoves(s: State) returns (e: Step)
    requires Inv(s) && !Stuck(s) && s.main.Checking?
    ensures Enabled(s, e)
    ensures e == ReturnFromBroadcast || (InProgress(Apply(s, e).main) && !Stuck(Apply(s, e)) && Nearer(Apply(s, e), s))
  {
    hide Deliveries, WorkInvariant, DataInvariant, Work;
    WorkOfPending(s.agents);
    e := if IsBroadcastPending(s) then SleepWhilePending else ReturnFromBroadcast;
    if IsBroadcastPending(s) {
      var t := Apply(s, e);
      assert forall i :: 0 <= i < |t.agents| ==> (Outstanding(t, i) <==> Outstanding(s, i));
    }
  }

  /** Whoever is inside agent_mutex leaves it. */
  lemma HolderMoves(s: State) returns (e: Step)
    requires Inv(s) && !Stuck(s) && (s.main.Locking? || s.main.Blocked?) && s.lock.Agents?
    ensures Enabled(s, e) && InProgress(Apply(s, e).main) && !Stuck(Apply(s, e)) && Nearer(Apply(s, e), s)
  {
    hide Deliveries, WorkInvariant, DataInvariant, FlagInvariant, Work;
    var id := s.lock.id;
    assert s.agents[id].pc.Holding?;
    e := if s.agents[id].pending then Take(id) else SleepAgent(id);
    AgentMoves(s, Apply(s, e), id);
  }

  /** Nobody is inside: an agent that has not taken the round yet goes on, and main if there is none. */
  lemma WaitMoves(s: State) returns (e: Step)
    requires Inv(s) && ReadsInOrder(s) && !Stuck(s) && s.main.Blocked? && s.lock.Nobody?
    ensures Enabled(s, e) && InProgress(Apply(s, e).main) && !Stuck(Apply(s, e)) && Nearer(Apply(s, e), s)
  {
    hide Deliveries, WorkInvariant, DataInvariant, Work, Put, Get;
    WorkOfPending(s.agents);
    if id: nat :| id < |s.agents| && s.agents[id].pending {
      assert AgentInvariant(s, id);
      assert Outstanding(s, id) && !s.agents[id].pc.Finished? && !s.agents[id].pc.Holding?;
      var a := s.agents[id];
      e := match a.pc
        case Running => if a.func then LockAgent(id) else Register(id)
        case Reading(_, _, done) =>
          ReadField(id, if Buffer !in done then Buffer else if Size !in done then Size else Value)
        case Calling(_, _) => ReturnFromCallback(id)
        case _ => WakeAgent(id);
      AgentMoves(s, Apply(s, e), id);
    } else {
      e := WakeMain;
      assert forall i :: 0 <= i < |s.agents| ==> !Outstanding(Apply(s, e), i);
    }
  }

  lemma LockMoves(s: State)
    requires Inv(s) && !Stuck(s) && s.main.Locking? && s.lock.Nobody?
    ensures Enabled(s, LockForBroadcast)
    ensures var t := Apply(s, LockForBroadcast); InProgress(t.main) && !Stuck(t) && Nearer(t, s)
  {
    hide Deliveries, WorkInvariant, DataInvariant, Work;
  }

  /** A broadcast that is not stuck has a next step towards its return. */
  lemma SomeoneMoves(s: State) returns (e: Step)
    requires Inv(s) && ReadsInOrder(s) && InProgress(s.main) && !Stuck(s)
    ensures Enabled(s, e)
    ensures e == ReturnFromBroadcast || (InProgress(Apply(s, e).main) && !Stuck(Apply(s, e)) && Nearer(Apply(s, e), s))
  {
    hide Stuck, Nearer, RoundInvariant, AgentInvariant, Enabled, Apply;
    if s.main.Filling? {
      e := FillMoves(s);
    } else if s.main.Checking? {
      e := CheckMoves(s);
    } else if s.lock.Agents? {
      e := HolderMoves(s);
    } else if s.main.Blocked? {
      e := WaitMoves(s);
    } else {
      e := LockForBroadcast;
      LockMoves(s);
    }
  }

  lemma OneStepMore(run: seq<Step>, e: Step)
    requires ValidRun(run) && Enabled(After(run), e)
    ensures ValidRun(run + [e]) && After(run + [e]) == Apply(After(run), e)
    ensures e == ReturnFromBroadcast ==> After(run + [e]).main.Idle?
  {
    hide Enabled;
    assert (run + [e])[..|run|] == run;
  }

  lemma {:induction false} CanReturn(run: seq<Step>) returns (more: seq<Step>)
    requires ValidRun(run) && InProgress(After(run).main) && !Stuck(After(run))
    ensures ValidRun(run + more) && After(run + more).main.Idle?
    decreases Phase(After(run).main), Left(After(run)), Work(After(run).agents), Turn(After(run))
  {
    hide ValidRun, After, Enabled, Apply, Inv, ReadsInOrder, Stuck, Phase, Left, Work, Turn, InProgress;
    EveryRunKeepsInv(run);
    EveryRunReadsInOrder(run);
    var e := SomeoneMoves(After(run));
    OneStepMore(run, e);
    if e == ReturnFromBroadcast {
      more := [e];
    } else {
      var rest := CanReturn(run + [e]);
      more := [e] + rest;
      assert run + more == run + [e] + rest;
    }
  }

  /** A broadcast that is under way can still return exactly when every agent of the list that has
      ended has taken the round: one that ended before never clears its flag. */
  lemma BroadcastCanReturnIff(run: seq<Step>)
    requires ValidRun(run)
    requires var m := After(run).main; m.Locking? || m.Filling? || m.Checking? || m.Blocked?
    ensures var s := After(run);
            (exists more :: ValidRun(run + more) && After(run + more).main.Idle?) <==>
            (forall i :: s.first <= i < |s.agents| && s.agents[i].pc.Finished? ==>
               !s.main.Locking? && !s.agents[i].pending && !(s.main.Filling? && s.main.next <= i))
  {
    hide ValidRun, After;
    if Stuck(After(run)) {
      forall more | ValidRun(run + more) ensures !After(run + more).main.Idle? {
        NeverReturns(run, more);
      }
    } else {
      var more := CanReturn(run);
    }
  }

  /** Start an agent, let it end, and broadcast: the call never returns. */
  lemma EndedAgentBlocks(d: Data) returns (run: seq<Step>)
    ensures run == [StartAgent, Finish(0), CallBroadcast(d)] && ValidRun(run) && After(run).main == Locking(d)
    ensures forall more :: ValidRun(run + more) ==> InProgress(After(run + more).main)
  {
    hide ValidRun, After;
    var a := Agent(Running, false, false, ZERO, []);
    var b := a.(pc := Finished);
    run := [];
    EmptyRun();
    OneStepMore(run, StartAgent);
    run := run + [StartAgent];
    assert After(run) == INIT.(agents := [a]);
    OneStepMore(run, Finish(0));
    run := run + [Finish(0)];
    assert After(run) == INIT.(agents := [b]);
    OneStepMore(run, CallBroadcast(d));
    run := run + [CallBroadcast(d)];
    var s := INIT.(agents := [b], main := Locking(d));
    assert After(run) == s && s.agents[0].pc.Finished?;
    assert Stuck(s);
    forall more | ValidRun(run + more) ensures InProgress(After(run + more).main) {
      NeverReturns(run, more);
    }
  }

  // ----- js_agent_free -----

  lemma {:induction false} JoinAll(run: seq<Step>) returns (more: seq<Step>)
    requires ValidRun(run) && After(run).main.Freeing? && After(run).first <= |After(run).agents|
    requires forall i :: After(run).first <= i < |After(run).agents| ==> After(run).agents[i].pc.Finished?
    ensures ValidRun(run + more)
    ensures var s, t := After(run), After(run + more);
            t.main.Idle? && t.first == |t.agents| && t.agents == s.agents && t.rounds == s.rounds && t.queue == s.queue
    decreases |After(run).agents| - After(run).first
  {
    hide ValidRun, After;
    var s := After(run);
    if s.first == |s.agents| {
      more := [FreeDone];
      OneStepMore(run, FreeDone);
    } else {
      OneStepMore(run, JoinNext);
      var rest := JoinAll(run + [JoinNext]);
      more := [JoinNext] + rest;
      assert run + more == run + [JoinNext] + rest;
    }
  }

  lemma ListIsInRange(s: State)
    requires Inv(s)
    ensures s.first <= |s.agents|
  {
    hide AgentInvariant, LockInvariant;
  }

  /** When all agents of the list have ended, js_agent_free can join and free them all. */
  lemma AgentsCanBeFreed(run: seq<Step>) returns (more: seq<Step>)
    requires ValidRun(run) && After(run).main.Idle?
    requires forall i :: After(run).first <= i < |After(run).agents| ==> After(run).agents[i].pc.Finished?
    ensures ValidRun(run + more)
    ensures var s, t := After(run), After(run + more);
            t.main.Idle? && t.first == |t.agents| && t.agents == s.agents && t.rounds == s.rounds && t.queue == s.queue
  {
    hide ValidRun, After, Inv;
    EveryRunKeepsInv(run);
    ListIsInRange(After(run));
    OneStepMore(run, CallFree);
    var rest := JoinAll(run + [CallFree]);
    more := [CallFree] + rest;
    assert run + more == run + [CallFree] + rest;
  }
}
