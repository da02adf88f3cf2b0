/**
 The imperative worker of `main/wifi_manager.c`: the file's static variables as fields and its
 functions as methods, each proved equal to its counterpart in `WifiFsm`.
 */
module WifiManager {
  import opened Prelude
  import opened NvsStorage
  import opened ScanCandidates
  import opened EventBus
  import opened AppState
  import opened WifiFsm

  class Worker {
    var fsm: Fsm
    var reason: Reason
    var retryDelayMs: nat
    var nextWaitMs: nat

    const candidateList: array<Network>
    const candidateRssi: array<int>
    var candidateCount: nat
    var candidateIndex: nat
    var candidateAttempt: nat

    const scanResults: array<ScanResult>
    var scanResultCount: nat
    var scanInProgress: bool

    const store: NvsStore
    const flags: Flags

    /** What the driver has been asked to do so far. */
    ghost var actions: seq<Action>

    ghost predicate Valid()
      reads this, store, flags.bus.handlerCount
    {
      && candidateList.Length == MAX_SAVED && candidateRssi.Length == MAX_SAVED
      && scanResults.Length == MAX_RESULTS
      && candidateCount <= MAX_SAVED && scanResultCount <= MAX_RESULTS
      && flags.bus.Valid()
      && candidateRssi as object != flags.bus.handlerCount as object
    }

    ghost function View(): (s: State)
      requires Valid()
      reads this, candidateList, candidateRssi, scanResults, store, flags, flags.bus, flags.bus.handlerCount
      ensures Shape(s)
    {
      State(Control(fsm, reason, retryDelayMs, nextWaitMs),
            CandidateTable(Zip(candidateList[..], candidateRssi[..]), candidateCount, candidateIndex, candidateAttempt),
            ScanTable(scanResults[..scanResultCount], scanInProgress),
            store.View(),
            Shared(flags.app, flags.btConnected, flags.wifiConnected),
            Trace(actions, flags.bus.published))
    }

    constructor (store: NvsStore, flags: Flags)
      requires flags.bus.Valid()
      requires !flags.wifiConnected && flags.bus.published == []
      ensures Valid() && this.store == store && this.flags == flags
      ensures IsInitial(View()) && View().store == store.View()
      ensures fresh(candidateList) && fresh(candidateRssi) && fresh(scanResults)
    {
      fsm, reason, retryDelayMs, nextWaitMs := Idle, NoReason, RETRY_BASE_MS, 0;
      candidateList := new Network[MAX_SAVED];
      candidateRssi := new int[MAX_SAVED];
      candidateCount, candidateIndex, candidateAttempt := 0, 0, 0;
      scanResults := new ScanResult[MAX_RESULTS];
      scanResultCount, scanInProgress := 0, false;
      this.store, this.flags := store, flags;
      actions := [];
    }

    method LoadSaved() returns (saved: SavedList)
      ensures ReadsAs(store.View(), saved)
    {
      var buffer := new Network[MAX_SAVED];
      var n, read := store.LoadNetworks(buffer, MAX_SAVED);
      saved := buffer[..n];
    }

    method HasSavedNetworks() returns (has: bool)
      ensures has <==> LoadedCount(store.View()) > 0
    {
      var one := new Network[1];
      var n, read := store.LoadNetworks(one, 1);
      has := n > 0;
    }

    /** The loads of an input that came from these lists. */
    ghost function LoadsOf(known: SavedList, saved: SavedList): (loads: Loads)
      requires ReadsAs(store.View(), known) && ReadsAs(store.View(), saved)
      reads this, store
      ensures LoadsFrom(store.View(), loads)
    {
      Loads(LoadedCount(store.View()) > 0, known, saved)
    }

    /** The loads of an input that makes none but the check for credentials. */
    ghost function NoLoads(): (loads: Loads)
      reads this, store
      ensures LoadsFrom(store.View(), loads)
    {
      LoadsOf(SomeRead(store.View()), SomeRead(store.View()))
    }

    method RunScan(scan: Scan) returns (ghost known: SavedList)
      requires Valid()
      modifies this, scanResults
      ensures ReadsAs(store.View(), known)
      ensures Valid() && View() == WifiFsm.RunScan(old(View()), scan, known)
    {
      known := SomeRead(store.View());
      scanInProgress := true;
      if scan.ScanFailed? {
        scanInProgress := false;
        return;
      }
      if scan.records == [] {
        scanResultCount := 0;
        scanInProgress := false;
        return;
      }
      var records := Truncated(scan.records, MAX_RECORDS);
      var saved := LoadSaved();
      known := saved;
      scanResultCount := StoreScanResults(records, saved, scanResults);
      scanInProgress := false;
    }

    method BuildCandidates() returns (ghost saved: SavedList)
      requires Valid()
      modifies this, candidateList, candidateRssi
      ensures ReadsAs(store.View(), saved)
      ensures Valid() && View() == WifiFsm.BuildCandidates(old(View()), saved)
    {
      var list := LoadSaved();
      saved := list;
      ghost var before := Zip(candidateList[..], candidateRssi[..]);
      candidateCount := BuildCandidateList(list, scanResults[..scanResultCount], candidateList, candidateRssi);
      candidateIndex := 0;
      ghost var cs := Candidates(saved, scanResults[..scanResultCount]);
      assert cs == Zip(candidateList[..candidateCount], candidateRssi[..candidateCount]);
      assert Zip(candidateList[..], candidateRssi[..]) == Overlay(cs, before);
    }

    method ConnectToCandidate(index: nat)
      requires Valid()
      modifies this`actions
      ensures Valid() && View() == ConnectTo(old(View()), index)
    {
      ghost var target := if index < MAX_SAVED then Some(candidateList[index]) else None;
      actions := actions + [Connect(index, target)];
    }

    method PrepareCycle(scan: Scan) returns (ghost loads: Loads)
      requires Valid()
      modifies this, candidateList, candidateRssi, scanResults, flags
      ensures LoadsFrom(store.View(), loads)
      ensures Valid() && View() == CyclePrepared(old(View()), scan, loads)
    {
      ghost var s := View();
      flags.SetApp(WifiConnecting);
      assert View() == SetApp(s, WifiConnecting);
      ghost var known := RunScan(scan);
      ghost var saved := BuildCandidates();
      loads := LoadsOf(known, saved);
      candidateAttempt := 0;
    }

    method StartConnectCycle(scan: Scan) returns (ghost loads: Loads)
      requires Valid()
      modifies this, candidateList, candidateRssi, scanResults, flags
      ensures LoadsFrom(store.View(), loads)
      ensures Valid() && View() == StartCycle(old(View()), scan, loads)
    {
      loads := PrepareCycle(scan);
      if candidateCount == 0 {
        flags.SetApp(WifiFailed);
        fsm := RetryWait;
        reason := InitialFailed;
        return;
      }
      fsm := Connecting;
      ConnectToCandidate(candidateIndex);
    }

    method HandleTimeout(scan: Scan) returns (ghost loads: Loads)
      requires Valid()
      modifies this, candidateList, candidateRssi, scanResults, flags
      ensures LoadsFrom(store.View(), loads)
      ensures Valid() && View() == WifiFsm.HandleTimeout(old(View()), scan, loads)
    {
      loads := NoLoads();
      if fsm != RetryWait { return; }
      var has := HasSavedNetworks();
      if !has {
        fsm := Idle;
        nextWaitMs := 0;
        return;
      }
      loads := StartConnectCycle(scan);
    }

    method EventInIdle(e: Event, env: Env) returns (ghost loads: Loads)
      requires Valid()
      modifies this, candidateList, candidateRssi, scanResults, store, flags
      ensures LoadsFrom(old(store.View()), loads)
      ensures Valid() && View() == HandleIdle(old(View()), e, env, loads)
    {
      loads := NoLoads();
      match e
      case ConnectRequest =>
        var has := HasSavedNetworks();
        if has { loads := StartConnectCycle(env.scan); } else { flags.SetApp(NoWifi); }
      case ScanRequest =>
        ghost var known := RunScan(env.scan);
        loads := LoadsOf(known, known);
      case ForgetRequest =>
        store.ClearNetworks(env.countErased, env.blobErased);
        actions := actions + [Disconnect];
        flags.SetApp(NoWifi);
      case _ =>
    }

    method OnAddress()
      requires Valid()
      modifies this, flags, flags.bus`published
      ensures Valid() && View() == GotAddress(old(View()))
    {
      flags.SetWifiConnected(true);
      var _ := flags.bus.Publish(UplinkUp);
      retryDelayMs := RETRY_BASE_MS;
      fsm := Connected;
      nextWaitMs := 0;
      if flags.btConnected {
        flags.SetApp(Bridge);
      } else if flags.app != WaitBt {
        flags.SetApp(WaitBt);
      }
    }

    /** No candidate is left to try. */
    method GiveUpCycle()
      requires Valid()
      modifies this, flags
      ensures Valid() && View() == CycleExhausted(old(View()))
    {
      flags.SetApp(WifiFailed);
      candidateCount := 0;
      fsm := RetryWait;
      reason := InitialFailed;
      nextWaitMs := FULL_RETRY_MS;
    }

    method OnAttemptFailed()
      requires Valid()
      modifies this, flags
      ensures Valid() && View() == AttemptFailed(old(View()))
    {
      candidateAttempt := candidateAttempt + 1;
      if candidateAttempt < MAX_ATTEMPTS {
        ConnectToCandidate(candidateIndex);
        return;
      }
      candidateAttempt := 0;
      candidateIndex := candidateIndex + 1;
      if candidateIndex < candidateCount {
        ConnectToCandidate(candidateIndex);
      } else {
        GiveUpCycle();
      }
    }

    method OnForgetDuringAttempt(env: Env)
      requires Valid()
      modifies this, store, flags
      ensures Valid() && View() == ForgotDuringAttempt(old(View()), env)
    {
      store.ClearNetworks(env.countErased, env.blobErased);
      actions := actions + [Disconnect];
      flags.SetApp(NoWifi);
      fsm := Idle;
      nextWaitMs := 0;
    }

    method EventInConnecting(e: Event, env: Env)
      requires Valid()
      modifies this, store, flags, flags.bus`published
      ensures Valid() && View() == HandleConnecting(old(View()), e, env)
    {
      match e
      case GotIp =>
        OnAddress();
      case Disconnected =>
        OnAttemptFailed();
      case ForgetRequest =>
        OnForgetDuringAttempt(env);
      case _ =>
    }

    method AwaitRetry()
      requires Valid()
      modifies this, flags
      ensures Valid() && View() == WaitAfterLoss(old(View()))
    {
      if flags.app == Bridge {
        flags.SetApp(BridgeNoWifi);
      }
      reason := LostConnection;
      fsm := RetryWait;
      nextWaitMs := retryDelayMs;
      retryDelayMs := if retryDelayMs * 2 > RETRY_MAX_MS then RETRY_MAX_MS else retryDelayMs * 2;
    }

    method OnLinkLost() returns (has: bool)
      requires Valid()
      modifies this, flags, flags.bus`published
      ensures has <==> LoadedCount(store.View()) > 0
      ensures Valid() && View() == LinkLost(old(View()), has)
    {
      ghost var s := View();
      flags.SetWifiConnected(false);
      var _ := flags.bus.Publish(UplinkDown);
      assert View() == SetConnected(s, false);
      has := HasSavedNetworks();
      if !has {
        flags.SetApp(NoWifi);
        fsm := Idle;
        nextWaitMs := 0;
      } else {
        AwaitRetry();
      }
    }

    method EventInConnected(e: Event, env: Env) returns (ghost loads: Loads)
      requires Valid()
      modifies this, scanResults, store, flags, flags.bus`published
      ensures LoadsFrom(old(store.View()), loads)
      ensures Valid() && View() == HandleConnected(old(View()), e, env, loads)
    {
      loads := NoLoads();
      match e
      case Disconnected =>
        var _ := OnLinkLost();
      case ScanRequest =>
        ghost var known := RunScan(env.scan);
        loads := LoadsOf(known, known);
      case ForgetRequest =>
        store.ClearNetworks(env.countErased, env.blobErased);
        actions := actions + [Disconnect];
      case RecoveryRequest =>
        fsm := Recovering;
        actions := actions + [SoftReset];
        fsm := Connecting;
        nextWaitMs := 0;
      case _ =>
    }

    method EventInRetryWait(e: Event, env: Env) returns (ghost loads: Loads)
      requires Valid()
      modifies this, candidateList, candidateRssi, scanResults, store, flags
      ensures LoadsFrom(old(store.View()), loads)
      ensures Valid() && View() == HandleRetryWait(old(View()), e, env, loads)
    {
      loads := NoLoads();
      match e
      case ConnectRequest =>
        loads := StartConnectCycle(env.scan);
      case ForgetRequest =>
        store.ClearNetworks(env.countErased, env.blobErased);
        flags.SetApp(NoWifi);
        fsm := Idle;
        nextWaitMs := 0;
      case RecoveryRequest =>
        fsm := Recovering;
        actions := actions + [SoftReset];
        fsm := Connecting;
        nextWaitMs := 0;
      case _ =>
    }

    method HandleEvent(e: Event, env: Env) returns (ghost loads: Loads)
      requires Valid()
      modifies this, candidateList, candidateRssi, scanResults, store, flags, flags.bus`published
      ensures LoadsFrom(old(store.View()), loads)
      ensures Valid() && View() == WifiFsm.HandleEvent(old(View()), e, env, loads)
    {
      loads := NoLoads();
      match fsm
      case Idle => loads := EventInIdle(e, env);
      case Connecting => EventInConnecting(e, env);
      case Connected => loads := EventInConnected(e, env);
      case RetryWait => loads := EventInRetryWait(e, env);
      case Recovering =>
    }
  }
}
