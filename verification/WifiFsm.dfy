/**
 The WiFi worker of `main/wifi_manager.c` as a function on its state: what each queue event,
 each queue timeout and each interfering task does. `WifiManager` proves the imperative
 worker equal to these functions; `WifiRuns` proves what whole runs keep.
 */
module WifiFsm {
  import opened Prelude
  import opened NvsStorage
  import opened ScanCandidates
  import opened EventBus
  import opened AppState

  const RETRY_BASE_MS: nat := 1000
  const RETRY_MAX_MS: nat := 30000
  const FULL_RETRY_MS: nat := 15000
  const MAX_ATTEMPTS: nat := 2

  datatype Fsm = Idle | Connecting | Connected | RetryWait | Recovering
  datatype Reason = NoReason | InitialFailed | LostConnection

  datatype Event = ConnectRequest | ScanRequest | ForgetRequest | RecoveryRequest | Disconnected | GotIp

  /** What the worker asks of the WiFi driver. A connect past the candidate table has no target. */
  datatype Action =
    | Connect(index: nat, target: Option<Network>)
    | Disconnect
    | SoftReset

  /** How a scan ends: the driver fails, or delivers its records. */
  datatype Scan = ScanFailed | Scanned(records: seq<ApRecord>)

  /** What the driver and the flash do while one input is handled. */
  datatype Env = Env(scan: Scan, countErased: bool, blobErased: bool)

  /**
   What the loads made while one input is handled return: whether the check for credentials finds
   a network, the list that a scan marks its results with, and the list that candidates come from.
   */
  datatype Loads = Loads(has: bool, known: SavedList, saved: SavedList)

  /** The loads of one input read these two keys. */
  predicate LoadsFrom(st: Store, loads: Loads) {
    (loads.has <==> LoadedCount(st) > 0) && ReadsAs(st, loads.known) && ReadsAs(st, loads.saved)
  }

  datatype Control = Control(fsm: Fsm, reason: Reason, retryDelayMs: nat, nextWaitMs: nat)
  datatype CandidateTable = CandidateTable(slots: seq<Candidate>, count: nat, index: nat, attempt: nat)
  datatype ScanTable = ScanTable(results: seq<ScanResult>, inProgress: bool)
  datatype Shared = Shared(app: App, btConnected: bool, wifiConnected: bool)
  datatype Trace = Trace(actions: seq<Action>, published: seq<EventType>)

  datatype State = State(ctl: Control, cand: CandidateTable, scan: ScanTable, store: Store,
                         shared: Shared, trace: Trace)

  predicate Shape(s: State) {
    && |s.cand.slots| == MAX_SAVED && s.cand.count <= MAX_SAVED
    && |s.scan.results| <= MAX_RESULTS
  }

  // ---- Helpers of the worker ----------------------------------------------------------

  function SetApp(s: State, a: App): State {
    s.(shared := s.shared.(app := a))
  }

  function Enter(s: State, fsm: Fsm, nextWaitMs: nat): State {
    s.(ctl := s.ctl.(fsm := fsm, nextWaitMs := nextWaitMs))
  }

  function Acted(s: State, a: Action): State {
    s.(trace := s.trace.(actions := s.trace.actions + [a]))
  }

  /** At most 32 records are fetched; a failed scan keeps the previous results. */
  function RunScan(s: State, scan: Scan, known: SavedList): (r: State)
    requires Shape(s)
    ensures Shape(r)
  {
    match scan
    case ScanFailed => s.(scan := s.scan.(inProgress := false))
    case Scanned(records) =>
      s.(scan := ScanTable(ScanResults(Truncated(records, MAX_RECORDS), known), false))
  }

  function Overlay<T>(top: seq<T>, under: seq<T>): (r: seq<T>)
    requires |top| <= |under|
    ensures |r| == |under| && top <= r
  {
    top + under[|top|..]
  }

  function BuildCandidates(s: State, saved: SavedList): (r: State)
    requires Shape(s)
    ensures Shape(r)
  {
    var cs := Candidates(saved, s.scan.results);
    s.(cand := CandidateTable(Overlay(cs, s.cand.slots), |cs|, 0, s.cand.attempt))
  }

  function ConnectCall(cand: CandidateTable, index: nat): Action {
    Connect(index, if index < |cand.slots| then Some(cand.slots[index].net) else None)
  }

  function ConnectTo(s: State, index: nat): State {
    Acted(s, ConnectCall(s.cand, index))
  }

  /** A fresh scan and candidate list. */
  function CyclePrepared(s: State, scan: Scan, loads: Loads): (r: State)
    requires Shape(s)
    ensures Shape(r)
  {
    var b := BuildCandidates(RunScan(SetApp(s, WifiConnecting), scan, loads.known), loads.saved);
    b.(cand := b.cand.(attempt := 0))
  }

  /** An empty candidate list leaves the wait time as it was. */
  function StartCycle(s: State, scan: Scan, loads: Loads): (r: State)
    requires Shape(s)
    ensures Shape(r)
  {
    var c := CyclePrepared(s, scan, loads);
    if c.cand.count == 0 then
      SetApp(c, WifiFailed).(ctl := c.ctl.(fsm := RetryWait, reason := InitialFailed))
    else
      ConnectTo(c.(ctl := c.ctl.(fsm := Connecting)), c.cand.index)
  }

  function SetConnected(s: State, connected: bool): State {
    s.(shared := s.shared.(wifiConnected := connected),
       trace := s.trace.(published := s.trace.published
         + (if s.shared.wifiConnected == connected then [] else [if connected then WifiUp else WifiDown])
         + [if connected then UplinkUp else UplinkDown]))
  }

  function Forget(s: State, env: Env): State {
    s.(store := Erased(s.store, env.countErased, env.blobErased))
  }

  function Recover(s: State): State {
    Acted(Enter(s, Connecting, 0), SoftReset)
  }

  function NextBackoff(ms: nat): nat {
    if ms * 2 > RETRY_MAX_MS then RETRY_MAX_MS else ms * 2
  }

  // ---- One input ---------------------------------------------------------------------------

  function HandleIdle(s: State, e: Event, env: Env, loads: Loads): (r: State)
    requires Shape(s)
    ensures Shape(r)
  {
    match e
    case ConnectRequest => if loads.has then StartCycle(s, env.scan, loads) else SetApp(s, NoWifi)
    case ScanRequest => RunScan(s, env.scan, loads.known)
    case ForgetRequest => SetApp(Acted(Forget(s, env), Disconnect), NoWifi)
    case RecoveryRequest => s
    case Disconnected => s
    case GotIp => s
  }

  function GotAddress(s: State): (r: State)
    requires Shape(s)
    ensures Shape(r)
  {
    var u := SetConnected(s, true).(ctl := s.ctl.(retryDelayMs := RETRY_BASE_MS, fsm := Connected, nextWaitMs := 0));
    SetApp(u, if s.shared.btConnected then Bridge else WaitBt)
  }

  function CycleExhausted(s: State): (r: State)
    requires Shape(s)
    ensures Shape(r)
  {
    SetApp(s, WifiFailed).(cand := s.cand.(count := 0),
                           ctl := s.ctl.(fsm := RetryWait, reason := InitialFailed, nextWaitMs := FULL_RETRY_MS))
  }

  /** Two attempts per candidate, then the next candidate, then the long wait. */
  function AttemptFailed(s: State): (r: State)
    requires Shape(s)
    ensures Shape(r)
  {
    if s.cand.attempt + 1 < MAX_ATTEMPTS then
      ConnectTo(s.(cand := s.cand.(attempt := s.cand.attempt + 1)), s.cand.index)
    else
      var n := s.(cand := s.cand.(attempt := 0, index := s.cand.index + 1));
      if n.cand.index < n.cand.count then ConnectTo(n, n.cand.index) else CycleExhausted(n)
  }

  function ForgotDuringAttempt(s: State, env: Env): (r: State)
    requires Shape(s)
    ensures Shape(r)
  {
    SetApp(Acted(Enter(Forget(s, env), Idle, 0), Disconnect), NoWifi)
  }

  function HandleConnecting(s: State, e: Event, env: Env): (r: State)
    requires Shape(s)
    ensures Shape(r)
  {
    match e
    case GotIp => GotAddress(s)
    case Disconnected => AttemptFailed(s)
    case ForgetRequest => ForgotDuringAttempt(s, env)
    case ConnectRequest => s
    case ScanRequest => s
    case RecoveryRequest => s
  }

  /** The wait after a loss is the current backoff; the next one would be longer. */
  function WaitAfterLoss(s: State): (r: State)
    requires Shape(s)
    ensures Shape(r)
  {
    SetApp(s, if s.shared.app == Bridge then BridgeNoWifi else s.shared.app)
    .(ctl := Control(RetryWait, LostConnection, NextBackoff(s.ctl.retryDelayMs), s.ctl.retryDelayMs))
  }

  function LinkLost(s: State, has: bool): (r: State)
    requires Shape(s)
    ensures Shape(r)
  {
    var d := SetConnected(s, false);
    if has then WaitAfterLoss(d) else SetApp(Enter(d, Idle, 0), NoWifi)
  }

  function HandleConnected(s: State, e: Event, env: Env, loads: Loads): (r: State)
    requires Shape(s)
    ensures Shape(r)
  {
    match e
    case Disconnected => LinkLost(s, loads.has)
    case ScanRequest => RunScan(s, env.scan, loads.known)
    case ForgetRequest => Acted(Forget(s, env), Disconnect)
    case RecoveryRequest => Recover(s)
    case ConnectRequest => s
    case GotIp => s
  }

  function HandleRetryWait(s: State, e: Event, env: Env, loads: Loads): (r: State)
    requires Shape(s)
    ensures Shape(r)
  {
    match e
    case ConnectRequest => StartCycle(s, env.scan, loads)
    case ForgetRequest => SetApp(Enter(Forget(s, env), Idle, 0), NoWifi)
    case RecoveryRequest => Recover(s)
    case ScanRequest => s
    case Disconnected => s
    case GotIp => s
  }

  function HandleEvent(s: State, e: Event, env: Env, loads: Loads): (r: State)
    requires Shape(s)
    ensures Shape(r)
  {
    match s.ctl.fsm
    case Idle => HandleIdle(s, e, env, loads)
    case Connecting => HandleConnecting(s, e, env)
    case Connected => HandleConnected(s, e, env, loads)
    case RetryWait => HandleRetryWait(s, e, env, loads)
    case Recovering => s
  }

  function HandleTimeout(s: State, scan: Scan, loads: Loads): (r: State)
    requires Shape(s)
    ensures Shape(r)
  {
    if s.ctl.fsm != RetryWait then s
    else if !loads.has then Enter(s, Idle, 0)
    else StartCycle(s, scan, loads)
  }

  /** How long the queue read blocks; `None` is forever. */
  function WaitTicks(s: State): Option<nat> {
    if s.ctl.nextWaitMs == 0 then None else Some(s.ctl.nextWaitMs)
  }

  /**
   Everything that happens to the worker's state, including what other tasks do to it. Loads
   return any lists, and the keys may change at any time, so that nothing proved about these
   inputs alone depends on what is stored, nor on writes that fail or are half done. A scan
   request that the full event queue drops takes its in-progress mark back.
   */
  datatype Input =
    | Handle(event: Event, env: Env, loads: Loads)
    | Timeout(scan: Scan, loads: Loads)
    | StoreChanges(store: Store)
    | PostScan(queued: bool)
    | BtFlag(connected: bool)
    | SetAppState(app: App)

  function Step(s: State, i: Input): (r: State)
    requires Shape(s)
    ensures Shape(r)
  {
    match i
    case Handle(e, env, loads) => HandleEvent(s, e, env, loads)
    case Timeout(scan, loads) => HandleTimeout(s, scan, loads)
    case StoreChanges(store) => s.(store := store)
    case PostScan(queued) => s.(scan := s.scan.(inProgress := queued))
    case BtFlag(connected) => s.(shared := s.shared.(btConnected := connected))
    case SetAppState(a) => SetApp(s, a)
  }

  /** A run: `trace[k + 1]` follows from `trace[k]` by `ins[k]`. */
  ghost predicate IsRun(trace: seq<State>, ins: seq<Input>) {
    && |trace| == |ins| + 1
    && (forall k :: 0 <= k < |trace| ==> Shape(trace[k]))
    && (forall k :: 0 <= k < |ins| ==> trace[k + 1] == Step(trace[k], ins[k]))
  }

  predicate IsInitial(s: State) {
    && Shape(s) && s.ctl == Control(Idle, NoReason, RETRY_BASE_MS, 0)
    && s.cand.count == 0 && s.cand.index == 0 && s.cand.attempt == 0
    && s.scan == ScanTable([], false) && !s.shared.wifiConnected && s.trace == Trace([], [])
  }
}
