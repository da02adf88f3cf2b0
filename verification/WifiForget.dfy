/**
 Forgetting the saved networks while the web server's task may be editing them. An edit loads the
 list, and later writes the two keys one after the other; nothing locks the keys in between.
 */
module WifiForget {
  import opened Prelude
  import opened NvsStorage
  import opened ScanCandidates
  import opened WifiFsm
  import WifiRuns

  /** Where the web server's task is inside an add or a remove. It makes one edit at a time. */
  datatype Pending =
    | NoEdit
    | MustPutCount(list: SavedList)
    | MustPutBlob(list: SavedList)

  datatype System = System(worker: State, pending: Pending)

  datatype Act =
    | Worker(input: Input)
    | Load(edit: Edit, read: SavedList)
    | PutCount(ok: bool)
    | PutBlob(ok: bool)

  /** The worker's loads read the keys, and the keys change only by the worker and by edits. */
  predicate Honest(st: Store, i: Input) {
    match i
    case Handle(_, _, loads) => LoadsFrom(st, loads)
    case Timeout(_, loads) => LoadsFrom(st, loads)
    case StoreChanges(_) => false
    case _ => true
  }

  predicate CanAct(s: System, a: Act) {
    match a
    case Worker(i) => Honest(s.worker.store, i)
    case Load(edit, read) => s.pending.NoEdit? && !edit.Clear? && ReadsAs(s.worker.store, read)
    case PutCount(_) => s.pending.MustPutCount?
    case PutBlob(_) => s.pending.MustPutBlob?
  }

  /** What the act is for the worker. */
  function InputOf(s: System, a: Act): Input
    requires CanAct(s, a)
  {
    match a
    case Worker(i) => i
    case Load(_, _) => StoreChanges(s.worker.store)
    case PutCount(ok) => StoreChanges(CountPut(s.worker.store, |s.pending.list|, ok))
    case PutBlob(ok) => StoreChanges(BlobPut(s.worker.store, s.pending.list, ok))
  }

  function NextPending(s: System, a: Act): Pending
    requires CanAct(s, a)
  {
    match a
    case Worker(_) => s.pending
    case Load(edit, read) => (match ToSave(read, edit) case None => NoEdit case Some(l) => MustPutCount(l))
    case PutCount(_) => MustPutBlob(s.pending.list)
    case PutBlob(_) => NoEdit
  }

  function Next(s: System, a: Act): (r: System)
    requires Shape(s.worker) && CanAct(s, a)
    ensures Shape(r.worker)
  {
    System(Step(s.worker, InputOf(s, a)), NextPending(s, a))
  }

  /** A run: `trace[k + 1]` follows from `trace[k]` by `acts[k]`. */
  ghost predicate IsRun(trace: seq<System>, acts: seq<Act>) {
    && |trace| == |acts| + 1
    && (forall k :: 0 <= k < |trace| ==> Shape(trace[k].worker))
    && (forall k :: 0 <= k < |acts| ==> CanAct(trace[k], acts[k]) && trace[k + 1] == Next(trace[k], acts[k]))
  }

  function Workers(trace: seq<System>): (r: seq<State>)
    ensures |r| == |trace| && forall k :: 0 <= k < |r| ==> r[k] == trace[k].worker
  {
    seq(|trace|, k requires 0 <= k < |trace| => trace[k].worker)
  }

  ghost function Inputs(trace: seq<System>, acts: seq<Act>): (r: seq<Input>)
    requires IsRun(trace, acts)
    ensures |r| == |acts| && forall k :: 0 <= k < |r| ==> r[k] == InputOf(trace[k], acts[k])
  {
    seq(|acts|, k requires 0 <= k < |acts| && IsRun(trace, acts) => InputOf(trace[k], acts[k]))
  }

  /** What is proved about the worker's runs holds of every run of the system. */
  lemma WorkerRuns(trace: seq<System>, acts: seq<Act>)
    requires IsRun(trace, acts)
    ensures WifiFsm.IsRun(Workers(trace), Inputs(trace, acts))
  {
    forall k | 0 <= k < |acts| ensures Workers(trace)[k + 1] == Step(Workers(trace)[k], Inputs(trace, acts)[k]) {
      assert trace[k + 1] == Next(trace[k], acts[k]);
    }
  }

  // ---- Forgetting --------------------------------------------------------------------------------

  /** No edit is about to save a network. */
  predicate NothingPending(p: Pending) {
    p.NoEdit? || p.list == []
  }

  predicate Forgotten(s: System) {
    && Shape(s.worker) && LoadedCount(s.worker.store) == 0 && NothingPending(s.pending)
    && (s.worker.ctl.fsm == Idle || s.worker.ctl.fsm == Connected)
  }

  predicate AddsNetwork(a: Act) {
    a.Load? && a.edit.Add?
  }

  predicate RecoversWhileConnected(s: System, a: Act) {
    a.Worker? && WifiRuns.RecoversWhileConnected(s.worker, a.input)
  }

  /** A handled forget forgets exactly if a key was erased and no edit is on its way to save a network. */
  lemma ForgetForgetsExactly(s: System, env: Env, loads: Loads)
    requires Shape(s.worker) && s.worker.ctl.fsm != Recovering && LoadsFrom(s.worker.store, loads)
    ensures Forgotten(Next(s, Worker(Handle(ForgetRequest, env, loads)))) <==>
              && (env.countErased || env.blobErased || LoadedCount(s.worker.store) == 0)
              && NothingPending(s.pending)
  {
    var st := s.worker.store;
    var after := Erased(st, env.countErased, env.blobErased);
    assert Step(s.worker, Handle(ForgetRequest, env, loads)).store == after;
    assert LoadedCount(after) == 0 <==> env.countErased || env.blobErased || LoadedCount(st) == 0;
  }

  lemma ForgottenByWorker(s: System, i: Input)
    requires Forgotten(s) && Honest(s.worker.store, i)
    ensures Forgotten(Next(s, Worker(i))) <==> !WifiRuns.RecoversWhileConnected(s.worker, i)
  {
  }

  lemma ForgottenByEdit(s: System, a: Act)
    requires Forgotten(s) && CanAct(s, a) && !a.Worker?
    ensures Forgotten(Next(s, a)) <==> !AddsNetwork(a)
  {
  }

  lemma NoConnectInIdle(s: State, i: Input)
    requires Shape(s) && s.ctl.fsm == Idle && (i.Handle? ==> !i.loads.has)
    ensures WifiRuns.ConnectCalls(Step(s, i).trace.actions) == WifiRuns.ConnectCalls(s.trace.actions)
  {
    WifiRuns.ConnectCallsAppend(s.trace.actions, Disconnect);
  }

  lemma NoConnectInConnected(s: State, i: Input)
    requires Shape(s) && s.ctl.fsm == Connected
    ensures WifiRuns.ConnectCalls(Step(s, i).trace.actions) == WifiRuns.ConnectCalls(s.trace.actions)
  {
    WifiRuns.ConnectCallsAppend(s.trace.actions, Disconnect);
    WifiRuns.ConnectCallsAppend(s.trace.actions, SoftReset);
  }

  /** It stays forgotten, by each act, exactly unless a network is added or a recovery handled on the link. */
  lemma ForgottenKeptExactly(s: System, a: Act)
    requires Forgotten(s) && CanAct(s, a)
    ensures Forgotten(Next(s, a)) <==> !AddsNetwork(a) && !RecoversWhileConnected(s, a)
    ensures WifiRuns.ConnectCalls(Next(s, a).worker.trace.actions) == WifiRuns.ConnectCalls(s.worker.trace.actions)
  {
    if a.Worker? { ForgottenByWorker(s, a.input); } else { ForgottenByEdit(s, a); }
    if s.worker.ctl.fsm == Idle {
      NoConnectInIdle(s.worker, InputOf(s, a));
    } else {
      NoConnectInConnected(s.worker, InputOf(s, a));
    }
  }

  /** Once forgotten, with no edit under way that saves a network, no connect call is made until one is added. */
  lemma {:induction false} ForgetIsFinal(trace: seq<System>, acts: seq<Act>)
    requires IsRun(trace, acts) && Forgotten(trace[0])
    requires forall k :: 0 <= k < |acts| ==> !AddsNetwork(acts[k]) && !RecoversWhileConnected(trace[k], acts[k])
    ensures Forgotten(trace[|acts|])
    ensures WifiRuns.ConnectCalls(trace[|acts|].worker.trace.actions)
            == WifiRuns.ConnectCalls(trace[0].worker.trace.actions)
  {
    if acts != [] {
      var n := |acts| - 1;
      ForgetIsFinal(trace[..n + 1], acts[..n]);
      ForgottenKeptExactly(trace[n], acts[n]);
    }
  }

  // ---- An edit that spans the forget -------------------------------------------------------------------

  /** One act more at the end of a run. */
  lemma Extend(trace: seq<System>, acts: seq<Act>, a: Act) returns (trace': seq<System>, acts': seq<Act>)
    requires IsRun(trace, acts) && CanAct(trace[|acts|], a)
    ensures IsRun(trace', acts') && acts' == acts + [a]
    ensures trace'[0] == trace[0] && trace'[|acts'|] == Next(trace[|acts|], a)
  {
    trace', acts' := trace + [Next(trace[|acts|], a)], acts + [a];
  }

  const ERASED := Env(ScanFailed, true, true)

  /** The forget, between the load and the writes of a remove. */
  function SpanningDelete(l: SavedList): seq<Act>
    requires |l| == 2
  {
    [Load(Remove(0), l), Worker(Handle(ForgetRequest, ERASED, Loads(true, l, l))), PutCount(true), PutBlob(true)]
  }

  lemma HiddenIsCandidate(n: Network, rs: seq<ScanResult>)
    requires n.hidden
    ensures |Candidates([n], rs)| == 1 && Candidates([n], rs)[0].net == n
  {
    assert [n][..0] == [];
    assert |Eligible([n], rs)| == 1 && Eligible([n], rs)[..0] == [];
  }

  lemma DeleteSpansForget(s: System) returns (trace: seq<System>, acts: seq<Act>)
    requires Shape(s.worker) && s.worker.ctl.fsm == Idle && s.pending.NoEdit?
    requires Coherent(s.worker.store) && |Loaded(s.worker.store)| == 2
    ensures IsRun(trace, acts) && trace[0] == s && acts == SpanningDelete(Loaded(s.worker.store))
    ensures var r := trace[|acts|];
            && r.worker.store == Store(Some(1), Some([Loaded(s.worker.store)[1]])) && r.pending.NoEdit?
            && r.worker.ctl.fsm == Idle && r.worker.trace.actions == s.worker.trace.actions + [Disconnect]
  {
    var l := Loaded(s.worker.store);
    assert RemoveAt(l, 0) == [l[1]];
    CoherentReadsAs(s.worker.store, l);
    trace, acts := Extend([s], [], Load(Remove(0), l));
    trace, acts := Extend(trace, acts, Worker(Handle(ForgetRequest, ERASED, Loads(true, l, l))));
    trace, acts := Extend(trace, acts, PutCount(true));
    trace, acts := Extend(trace, acts, PutBlob(true));
  }

  /**
   A delete that loads two networks before the forget and saves after it leaves the second one: the
   next connect request calls the driver, though nothing was added and no recovery was handled.
   */
  lemma SpanningDeleteConnects(s: System) returns (trace: seq<System>, acts: seq<Act>)
    requires Shape(s.worker) && s.worker.ctl.fsm == Idle && s.pending.NoEdit?
    requires Coherent(s.worker.store) && |Loaded(s.worker.store)| == 2 && Loaded(s.worker.store)[1].hidden
    ensures IsRun(trace, acts) && trace[0] == s
    ensures forall k :: 0 <= k < |acts| ==> !AddsNetwork(acts[k]) && !RecoversWhileConnected(trace[k], acts[k])
    ensures trace[|acts|].worker.trace.actions
            == s.worker.trace.actions + [Disconnect, Connect(0, Some(Loaded(s.worker.store)[1]))]
  {
    var b := Loaded(s.worker.store)[1];
    trace, acts := DeleteSpansForget(s);
    var w, loads := trace[|acts|].worker, Loads(true, [b], [b]);
    HiddenIsCandidate(b, w.scan.results);
    assert Step(w, Handle(ConnectRequest, ERASED, loads)) == StartCycle(w, ScanFailed, loads);
    trace, acts := Extend(trace, acts, Worker(Handle(ConnectRequest, ERASED, loads)));
  }
}
