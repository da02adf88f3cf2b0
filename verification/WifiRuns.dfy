/** What whole runs of the WiFi worker keep, and exactly where the obvious claims stop holding. */
module WifiRuns {
  import opened Prelude
  import opened NvsStorage
  import opened ScanCandidates
  import opened EventBus
  import opened WifiFsm

  /** The worker is not talking to the driver about a connection. */
  predicate AtRest(s: State) {
    s.ctl.fsm == Idle || s.ctl.fsm == RetryWait
  }

  predicate OnLink(s: State) {
    s.ctl.fsm == Connecting || s.ctl.fsm == Connected
  }

  // ---- Candidate bounds ---------------------------------------------------------------------

  predicate Bounds(s: State) {
    && Shape(s) && s.cand.attempt < 2 && s.ctl.fsm != Recovering
    && (s.ctl.fsm == Connecting || s.ctl.fsm == Connected ==> s.cand.index < s.cand.count)
    && (s.ctl.fsm == RetryWait ==> s.ctl.reason != NoReason)
    && (s.ctl.fsm == RetryWait && s.ctl.reason == LostConnection ==> s.cand.index < s.cand.count)
    && (s.ctl.fsm == RetryWait && s.ctl.reason == InitialFailed ==> s.cand.count == 0)
  }

  /** Recovery handled while waiting after a cycle that never got an address. */
  predicate RecoversAfterFailure(s: State, i: Input) {
    i.Handle? && i.event == RecoveryRequest && s.ctl.fsm == RetryWait && s.ctl.reason == InitialFailed
  }

  lemma BoundsInIdle(s: State, i: Input)
    requires Bounds(s) && s.ctl.fsm == Idle
    ensures Bounds(Step(s, i)) <==> !RecoversAfterFailure(s, i)
  {
  }

  lemma BoundsInRetryWait(s: State, i: Input)
    requires Bounds(s) && s.ctl.fsm == RetryWait
    ensures Bounds(Step(s, i)) <==> !RecoversAfterFailure(s, i)
  {
  }

  lemma BoundsAtRest(s: State, i: Input)
    requires Bounds(s) && AtRest(s)
    ensures Bounds(Step(s, i)) <==> !RecoversAfterFailure(s, i)
  {
    if s.ctl.fsm == Idle { BoundsInIdle(s, i); } else { BoundsInRetryWait(s, i); }
  }

  lemma BoundsOnLink(s: State, i: Input)
    requires Bounds(s) && OnLink(s)
    ensures Bounds(Step(s, i))
  {
  }

  lemma BoundsKeptExactly(s: State, i: Input)
    requires Bounds(s)
    ensures Bounds(Step(s, i)) <==> !RecoversAfterFailure(s, i)
  {
    if AtRest(s) { BoundsAtRest(s, i); } else { BoundsOnLink(s, i); }
  }

  /** The action, if a connect, addresses a live candidate of the table. */
  predicate IsLive(a: Action, cand: CandidateTable) {
    a.Connect? ==> a.index < cand.count <= |cand.slots| && a.target == Some(cand.slots[a.index].net)
  }

  /** At most one action more, and a live one if it is a connect. */
  predicate OneLiveAction(before: seq<Action>, after: seq<Action>, cand: CandidateTable) {
    || after == before
    || (|after| > 0 && after == before + [after[|after| - 1]] && IsLive(after[|after| - 1], cand))
  }

  lemma ActsInIdle(s: State, i: Input)
    requires Bounds(s) && s.ctl.fsm == Idle && !RecoversAfterFailure(s, i)
    ensures OneLiveAction(s.trace.actions, Step(s, i).trace.actions, Step(s, i).cand)
  {
  }

  lemma ActsInRetryWait(s: State, i: Input)
    requires Bounds(s) && s.ctl.fsm == RetryWait && !RecoversAfterFailure(s, i)
    ensures OneLiveAction(s.trace.actions, Step(s, i).trace.actions, Step(s, i).cand)
  {
  }

  lemma ActsAtRest(s: State, i: Input)
    requires Bounds(s) && AtRest(s) && !RecoversAfterFailure(s, i)
    ensures OneLiveAction(s.trace.actions, Step(s, i).trace.actions, Step(s, i).cand)
  {
    if s.ctl.fsm == Idle { ActsInIdle(s, i); } else { ActsInRetryWait(s, i); }
  }

  lemma ActsOnLink(s: State, i: Input)
    requires Bounds(s) && OnLink(s)
    ensures OneLiveAction(s.trace.actions, Step(s, i).trace.actions, Step(s, i).cand)
  {
  }

  /** One input asks the driver for at most one thing. */
  lemma StepActsAtMostOnce(s: State, i: Input)
    requires Bounds(s) && !RecoversAfterFailure(s, i)
    ensures OneLiveAction(s.trace.actions, Step(s, i).trace.actions, Step(s, i).cand)
  {
    if AtRest(s) { ActsAtRest(s, i); } else { ActsOnLink(s, i); }
  }

  lemma {:induction false} BoundsAt(trace: seq<State>, ins: seq<Input>, k: nat)
    requires IsRun(trace, ins) && Bounds(trace[0]) && k < |trace|
    requires forall n :: 0 <= n < |ins| ==> !RecoversAfterFailure(trace[n], ins[n])
    ensures Bounds(trace[k])
  {
    if k > 0 {
      BoundsAt(trace, ins, k - 1);
      BoundsKeptExactly(trace[k - 1], ins[k - 1]);
    }
  }

  lemma LiveActionAt(trace: seq<State>, ins: seq<Input>, k: nat)
    requires IsRun(trace, ins) && k < |ins| && Bounds(trace[k]) && !RecoversAfterFailure(trace[k], ins[k])
    ensures OneLiveAction(trace[k].trace.actions, trace[k + 1].trace.actions, trace[k + 1].cand)
  {
    StepActsAtMostOnce(trace[k], ins[k]);
  }

  /**
   Over every run without such a recovery the bounds hold in every state, and every input made
   at most one driver call, which addressed a live candidate if it was a connect.
   */
  lemma BoundsOverRuns(trace: seq<State>, ins: seq<Input>)
    requires IsRun(trace, ins) && Bounds(trace[0])
    requires forall k :: 0 <= k < |ins| ==> !RecoversAfterFailure(trace[k], ins[k])
    ensures forall k :: 0 <= k < |trace| ==> Bounds(trace[k])
    ensures forall k :: 0 <= k < |ins| ==>
              OneLiveAction(trace[k].trace.actions, trace[k + 1].trace.actions, trace[k + 1].cand)
  {
    forall k | 0 <= k < |trace| ensures Bounds(trace[k]) {
      BoundsAt(trace, ins, k);
    }
    forall k | 0 <= k < |ins|
      ensures OneLiveAction(trace[k].trace.actions, trace[k + 1].trace.actions, trace[k + 1].cand)
    {
      LiveActionAt(trace, ins, k);
    }
  }

  /**
   Without the exclusion the index leaves the table: six candidates exhausted, a recovery,
   and one more disconnect make a connect call with no candidate behind it.
   */
  lemma ConnectPastTheTable(s: State, env: Env, loads: Loads)
    requires Bounds(s) && s.ctl.fsm == Connecting && s.cand.count == 6
    requires s.cand.index == 5 && s.cand.attempt == 1
    ensures var drop := Handle(Disconnected, env, loads);
            Step(Step(Step(s, drop), Handle(RecoveryRequest, env, loads)), drop).trace.actions
            == s.trace.actions + [SoftReset, Connect(6, None)]
  {
    var s1 := Step(s, Handle(Disconnected, env, loads));
    assert s1 == AttemptFailed(s) && s1.ctl.fsm == RetryWait && s1.cand.index == 6;
    var s2 := Step(s1, Handle(RecoveryRequest, env, loads));
    assert s2 == Recover(s1);
    assert Step(s2, Handle(Disconnected, env, loads)) == AttemptFailed(s2);
  }

  /** The stored reason says how the wait was entered. */
  lemma ReasonTellsHow(s: State, i: Input)
    requires Bounds(s) && Step(s, i).ctl.fsm == RetryWait
    ensures s.ctl.fsm != RetryWait ==> (Step(s, i).ctl.reason == LostConnection <==> s.ctl.fsm == Connected)
    ensures Step(s, i).ctl.reason == LostConnection ==> s.ctl.fsm == Connected || s.ctl.reason == LostConnection
  {
  }

  // ---- Timers -----------------------------------------------------------------------------------

  predicate Timers(s: State) {
    && Shape(s)
    && (s.ctl.retryDelayMs == 1000 || (s.ctl.retryDelayMs == 2000 && s.ctl.fsm != Connected))
    && (s.ctl.fsm == Idle || s.ctl.fsm == Connected ==> s.ctl.nextWaitMs == 0)
    && (s.ctl.fsm == RetryWait && s.ctl.reason == LostConnection ==> s.ctl.nextWaitMs == 1000)
    && (s.ctl.nextWaitMs == 0 || s.ctl.nextWaitMs == 1000 || s.ctl.nextWaitMs == 15000)
  }

  lemma TimersInIdle(s: State, i: Input)
    requires Timers(s) && s.ctl.fsm == Idle
    ensures Timers(Step(s, i)) && Step(s, i).ctl.fsm != Recovering
  {
  }

  /** A connect cycle neither arms nor disarms the timer, and leaves the backoff alone. */
  lemma StartCycleKeepsTimers(s: State, scan: Scan, loads: Loads)
    requires Shape(s)
    ensures var r := StartCycle(s, scan, loads).ctl;
            && r.retryDelayMs == s.ctl.retryDelayMs && r.nextWaitMs == s.ctl.nextWaitMs
            && (r.fsm == Connecting || (r.fsm == RetryWait && r.reason == InitialFailed))
  {
  }

  lemma TimersByTimeout(s: State, i: Input)
    requires Timers(s) && s.ctl.fsm == RetryWait && i.Timeout?
    ensures Timers(Step(s, i)) && Step(s, i).ctl.fsm != Recovering
  {
    StartCycleKeepsTimers(s, i.scan, i.loads);
  }

  lemma TimersByConnect(s: State, i: Input)
    requires Timers(s) && s.ctl.fsm == RetryWait && i.Handle? && i.event == ConnectRequest
    ensures Timers(Step(s, i)) && Step(s, i).ctl.fsm != Recovering
  {
    StartCycleKeepsTimers(s, i.env.scan, i.loads);
  }

  lemma TimersByOthers(s: State, i: Input)
    requires Timers(s) && s.ctl.fsm == RetryWait && !i.Timeout? && !(i.Handle? && i.event == ConnectRequest)
    ensures Timers(Step(s, i)) && Step(s, i).ctl.fsm != Recovering
  {
  }

  lemma TimersInRetryWait(s: State, i: Input)
    requires Timers(s) && s.ctl.fsm == RetryWait
    ensures Timers(Step(s, i)) && Step(s, i).ctl.fsm != Recovering
  {
    if i.Timeout? {
      TimersByTimeout(s, i);
    } else if i.Handle? && i.event == ConnectRequest {
      TimersByConnect(s, i);
    } else {
      TimersByOthers(s, i);
    }
  }

  lemma TimersOnLink(s: State, i: Input)
    requires Timers(s) && OnLink(s)
    ensures Timers(Step(s, i)) && Step(s, i).ctl.fsm != Recovering
  {
  }

  lemma TimersKept(s: State, i: Input)
    requires Timers(s) && s.ctl.fsm != Recovering
    ensures Timers(Step(s, i)) && Step(s, i).ctl.fsm != Recovering
  {
    if s.ctl.fsm == Idle {
      TimersInIdle(s, i);
    } else if s.ctl.fsm == RetryWait {
      TimersInRetryWait(s, i);
    } else {
      TimersOnLink(s, i);
    }
  }

  /** On every run the wait after a lost connection is the base delay: the backoff never grows. */
  lemma {:induction false} TimersOverRuns(trace: seq<State>, ins: seq<Input>)
    requires IsRun(trace, ins) && Timers(trace[0]) && trace[0].ctl.fsm != Recovering
    ensures Timers(trace[|ins|]) && trace[|ins|].ctl.fsm != Recovering
  {
    if ins != [] {
      var n := |ins| - 1;
      TimersOverRuns(trace[..n + 1], ins[..n]);
      TimersKept(trace[n], ins[n]);
    }
  }

  /**
   What timer a retry wait has. The one entered from IDLE has none; starting a cycle again
   without success keeps whatever was armed before.
   */
  lemma RetryTimerExactly(s: State, i: Input)
    requires Timers(s) && s.ctl.fsm != Recovering && Step(s, i).ctl.fsm == RetryWait
    ensures WaitTicks(Step(s, i)) ==
            match s.ctl.fsm
            case Idle => None
            case Connecting => Some(15000)
            case Connected => Some(1000)
            case RetryWait => WaitTicks(s)
            case Recovering => None
  {
  }

  /** A timeout can only happen while a timer is armed. */
  predicate Possible(s: State, i: Input) {
    i.Timeout? ==> WaitTicks(s).Some?
  }

  predicate Wakes(i: Input) {
    i.Handle? && (i.event == ConnectRequest || i.event == ForgetRequest || i.event == RecoveryRequest)
  }

  predicate UnarmedWait(s: State) {
    Shape(s) && s.ctl.fsm == RetryWait && WaitTicks(s) == None
  }

  lemma UnarmedWaitKept(s: State, i: Input)
    requires UnarmedWait(s) && Possible(s, i) && !Wakes(i)
    ensures UnarmedWait(Step(s, i)) && Step(s, i).trace.actions == s.trace.actions
  {
  }

  /** A retry wait without a timer lasts until someone asks: nothing else ever connects again. */
  lemma {:induction false} UnarmedWaitLasts(trace: seq<State>, ins: seq<Input>)
    requires IsRun(trace, ins) && UnarmedWait(trace[0])
    requires forall k :: 0 <= k < |ins| ==> Possible(trace[k], ins[k]) && !Wakes(ins[k])
    ensures UnarmedWait(trace[|ins|]) && trace[|ins|].trace.actions == trace[0].trace.actions
  {
    if ins != [] {
      var n := |ins| - 1;
      UnarmedWaitLasts(trace[..n + 1], ins[..n]);
      UnarmedWaitKept(trace[n], ins[n]);
    }
  }

  // ---- Uplink flag and uplink events ----------------------------------------------------------------

  /** `log` is WifiUp, UplinkUp, WifiDown, UplinkDown over and over, and leaves the link `up`. */
  predicate Alternating(log: seq<EventType>, up: bool) {
    if log == [] then !up
    else
      && |log| >= 2
      && log[|log| - 2] == (if up then WifiUp else WifiDown)
      && log[|log| - 1] == (if up then UplinkUp else UplinkDown)
      && Alternating(log[..|log| - 2], !up)
  }

  predicate UplinkTracked(s: State) {
    && Shape(s) && s.ctl.fsm != Recovering
    && (s.shared.wifiConnected <==> s.ctl.fsm == Connected)
    && Alternating(s.trace.published, s.shared.wifiConnected)
  }

  predicate RecoversWhileConnected(s: State, i: Input) {
    i.Handle? && i.event == RecoveryRequest && s.ctl.fsm == Connected
  }

  lemma UplinkInIdle(s: State, i: Input)
    requires UplinkTracked(s) && s.ctl.fsm == Idle
    ensures UplinkTracked(Step(s, i))
  {
  }

  lemma UplinkInRetryWait(s: State, i: Input)
    requires UplinkTracked(s) && s.ctl.fsm == RetryWait
    ensures UplinkTracked(Step(s, i))
  {
  }

  lemma UplinkAtRest(s: State, i: Input)
    requires UplinkTracked(s) && AtRest(s)
    ensures UplinkTracked(Step(s, i))
  {
    if s.ctl.fsm == Idle { UplinkInIdle(s, i); } else { UplinkInRetryWait(s, i); }
  }

  lemma UplinkOnLink(s: State, i: Input)
    requires UplinkTracked(s) && OnLink(s)
    ensures UplinkTracked(Step(s, i)) <==> !RecoversWhileConnected(s, i)
  {
    var log := s.trace.published;
    if i.Handle? {
      if s.ctl.fsm == Connecting && i.event == GotIp {
        assert (log + [WifiUp] + [UplinkUp])[..|log|] == log;
      }
      if s.ctl.fsm == Connected && i.event == Disconnected {
        assert (log + [WifiDown] + [UplinkDown])[..|log|] == log;
      }
    }
  }

  lemma UplinkTrackedExactly(s: State, i: Input)
    requires UplinkTracked(s)
    ensures UplinkTracked(Step(s, i)) <==> !RecoversWhileConnected(s, i)
  {
    if AtRest(s) { UplinkAtRest(s, i); } else { UplinkOnLink(s, i); }
  }

  /** On every run without such a recovery the flag and the events follow the connection. */
  lemma {:induction false} UplinkTrackedOverRuns(trace: seq<State>, ins: seq<Input>)
    requires IsRun(trace, ins) && UplinkTracked(trace[0])
    requires forall k :: 0 <= k < |ins| ==> !RecoversWhileConnected(trace[k], ins[k])
    ensures UplinkTracked(trace[|ins|])
  {
    if ins != [] {
      var n := |ins| - 1;
      UplinkTrackedOverRuns(trace[..n + 1], ins[..n]);
      UplinkTrackedExactly(trace[n], ins[n]);
    }
  }

  lemma {:induction false} AlternatingIsPeriodic(log: seq<EventType>, up: bool, k: nat)
    requires Alternating(log, up) && k < |log|
    ensures |log| % 4 == (if up then 2 else 0)
    ensures log[k] == [WifiUp, UplinkUp, WifiDown, UplinkDown][k % 4]
  {
    var init := log[..|log| - 2];
    if init == [] {
      assert up;
    } else {
      AlternatingIsPeriodic(init, !up, if k < |init| then k else 0);
    }
  }

  /** After a recovery handled while connected, the next address repeats UplinkUp alone. */
  lemma RecoveryRepeatsUplinkUp(s: State, env: Env, loads: Loads)
    requires UplinkTracked(s) && s.ctl.fsm == Connected
    ensures Step(Step(s, Handle(RecoveryRequest, env, loads)), Handle(GotIp, env, loads)).trace.published
            == s.trace.published + [UplinkUp]
    ensures s.trace.published != [] && s.trace.published[|s.trace.published| - 1] == UplinkUp
  {
    var r := Step(s, Handle(RecoveryRequest, env, loads));
    assert r == Recover(s);
    assert Step(r, Handle(GotIp, env, loads)) == GotAddress(r);
  }

  // ---- Failover -----------------------------------------------------------------------------------------

  function ConnectCalls(actions: seq<Action>): seq<Action> {
    if actions == [] then [] else
      ConnectCalls(actions[..|actions| - 1])
      + (if actions[|actions| - 1].Connect? then [actions[|actions| - 1]] else [])
  }

  lemma ConnectCallsAppend(actions: seq<Action>, a: Action)
    ensures ConnectCalls(actions + [a]) == ConnectCalls(actions) + (if a.Connect? then [a] else [])
  {
    assert (actions + [a])[..|actions|] == actions;
  }

  predicate IsDrop(i: Input) {
    i.Handle? && i.event == Disconnected
  }

  /** Inputs that do not end a connect cycle by themselves. */
  predicate KeepsTrying(i: Input) {
    i.Handle? ==> i.event != GotIp && i.event != ForgetRequest
  }

  function Drops(ins: seq<Input>): nat {
    if ins == [] then 0 else Drops(ins[..|ins| - 1]) + (if IsDrop(ins[|ins| - 1]) then 1 else 0)
  }

  /** The calls made by `drops` disconnects after the first call: 0, 1, 1, 2, 2, ... */
  function Retries(slots: seq<Candidate>, drops: nat): (r: seq<Action>)
    requires drops < 2 * |slots|
    ensures |r| == drops
    ensures forall k :: 0 <= k < drops ==> r[k] == Connect((k + 1) / 2, Some(slots[(k + 1) / 2].net))
  {
    if drops == 0 then [] else Retries(slots, drops - 1) + [Connect(drops / 2, Some(slots[drops / 2].net))]
  }

  predicate CycleJustStarted(s: State) {
    Bounds(s) && s.ctl.fsm == Connecting && s.cand.index == 0 && s.cand.attempt == 0
  }

  /** A successful start makes the first call, to the strongest candidate. */
  lemma StartCycleBegins(s: State, scan: Scan, loads: Loads)
    requires Bounds(s)
    ensures var r := StartCycle(s, scan, loads);
            r.ctl.fsm == Connecting ==>
              CycleJustStarted(r) && r.trace.actions == s.trace.actions + [Connect(0, Some(r.cand.slots[0].net))]
    ensures StartCycle(s, scan, loads).ctl.fsm == RetryWait ==> StartCycle(s, scan, loads).trace.actions == s.trace.actions
    ensures StartCycle(s, scan, loads).ctl.fsm == Connecting || StartCycle(s, scan, loads).ctl.fsm == RetryWait
  {
  }

  /** The position of a cycle after `drops` disconnects. */
  predicate At(s: State, slots: seq<Candidate>, count: nat, drops: nat) {
    && Shape(s) && s.ctl.fsm == Connecting && s.cand.slots == slots && s.cand.count == count
    && 2 * s.cand.index + s.cand.attempt == drops < 2 * count && s.cand.attempt < 2
  }

  lemma DropMovesOn(s: State, slots: seq<Candidate>, count: nat, drops: nat, i: Input)
    requires At(s, slots, count, drops) && IsDrop(i)
    ensures drops + 1 < 2 * count ==>
              && At(Step(s, i), slots, count, drops + 1)
              && Step(s, i).trace.actions
                 == s.trace.actions + [Connect((drops + 1) / 2, Some(slots[(drops + 1) / 2].net))]
    ensures drops + 1 == 2 * count ==>
              var r := Step(s, i);
              && r.ctl.fsm == RetryWait && r.ctl.reason == InitialFailed && WaitTicks(r) == Some(15000)
              && r.trace.actions == s.trace.actions
  {
  }

  lemma OthersStay(s: State, slots: seq<Candidate>, count: nat, drops: nat, i: Input)
    requires At(s, slots, count, drops) && KeepsTrying(i) && !IsDrop(i)
    ensures At(Step(s, i), slots, count, drops) && Step(s, i).trace.actions == s.trace.actions
  {
  }

  /** Where a cycle that started in `start` stands after `drops` disconnects, and what it has called. */
  predicate Stands(s: State, start: State, drops: nat)
    requires Shape(start)
  {
    && At(s, start.cand.slots, start.cand.count, drops)
    && ConnectCalls(s.trace.actions) == ConnectCalls(start.trace.actions) + Retries(start.cand.slots, drops)
  }

  lemma DropCallsNext(s: State, start: State, drops: nat, i: Input)
    requires Shape(start) && Stands(s, start, drops) && IsDrop(i) && drops + 1 < 2 * start.cand.count
    ensures Stands(Step(s, i), start, drops + 1)
  {
    var slots, next := start.cand.slots, (drops + 1) / 2;
    DropMovesOn(s, slots, start.cand.count, drops, i);
    ConnectCallsAppend(s.trace.actions, Connect(next, Some(slots[next].net)));
    assert Retries(slots, drops + 1) == Retries(slots, drops) + [Connect(next, Some(slots[next].net))];
  }

  /** Where a cycle stands after any inputs that include fewer than 2n disconnects. */
  lemma {:induction false} FailoverOrder(trace: seq<State>, ins: seq<Input>)
    requires IsRun(trace, ins) && CycleJustStarted(trace[0])
    requires forall k :: 0 <= k < |ins| ==> KeepsTrying(ins[k])
    requires Drops(ins) < 2 * trace[0].cand.count
    ensures Stands(trace[|ins|], trace[0], Drops(ins))
  {
    if ins != [] {
      var n := |ins| - 1;
      var drops := Drops(ins[..n]);
      FailoverOrder(trace[..n + 1], ins[..n]);
      if IsDrop(ins[n]) {
        DropCallsNext(trace[n], trace[0], drops, ins[n]);
      } else {
        OthersStay(trace[n], trace[0].cand.slots, trace[0].cand.count, drops, ins[n]);
      }
    }
  }

  /** The 2n-th disconnect, and no earlier input, ends the cycle, in the 15-second wait. */
  lemma FailoverEnds(trace: seq<State>, ins: seq<Input>, last: Input)
    requires IsRun(trace, ins) && CycleJustStarted(trace[0])
    requires forall k :: 0 <= k < |ins| ==> KeepsTrying(ins[k])
    requires Drops(ins) < 2 * trace[0].cand.count && KeepsTrying(last)
    ensures var r := Step(trace[|ins|], last);
            && (r.ctl.fsm == RetryWait <==> IsDrop(last) && Drops(ins) == 2 * trace[0].cand.count - 1)
            && (r.ctl.fsm == RetryWait ==>
                  && r.ctl.reason == InitialFailed && WaitTicks(r) == Some(15000)
                  && ConnectCalls(r.trace.actions)
                     == ConnectCalls(trace[0].trace.actions)
                        + Retries(trace[0].cand.slots, 2 * trace[0].cand.count - 1))
  {
    FailoverOrder(trace, ins);
    var slots, count, q := trace[0].cand.slots, trace[0].cand.count, trace[|ins|];
    if IsDrop(last) {
      DropMovesOn(q, slots, count, Drops(ins), last);
    } else {
      OthersStay(q, slots, count, Drops(ins), last);
    }
  }

  // ---- The scan flag --------------------------------------------------------------------------------------------

  /** Handling a scan request clears the in-progress flag exactly when the worker is not busy. */
  lemma ScanFlagClearedExactly(s: State, env: Env, loads: Loads)
    requires Shape(s) && s.ctl.fsm != Recovering
    ensures var posted := Step(s, PostScan(true));
            !Step(posted, Handle(ScanRequest, env, loads)).scan.inProgress <==> s.ctl.fsm == Idle || s.ctl.fsm == Connected
  {
  }

  // ---- From boot ----------------------------------------------------------------------------------------------------

  lemma InitialIsGood(s: State)
    requires IsInitial(s)
    ensures Bounds(s) && Timers(s) && UplinkTracked(s)
  {
  }

  /** From boot, over every run without the two recoveries, all of the above holds. */
  lemma RunsFromBoot(trace: seq<State>, ins: seq<Input>)
    requires IsRun(trace, ins) && IsInitial(trace[0])
    requires forall k :: 0 <= k < |ins| ==>
               !RecoversAfterFailure(trace[k], ins[k]) && !RecoversWhileConnected(trace[k], ins[k])
    ensures var s := trace[|ins|]; Bounds(s) && Timers(s) && UplinkTracked(s)
  {
    InitialIsGood(trace[0]);
    BoundsAt(trace, ins, |ins|);
    TimersOverRuns(trace, ins);
    UplinkTrackedOverRuns(trace, ins);
  }
}
