/**
 The WiFi worker, the Bluetooth handlers and NAT switching run together: the events that the first
 two publish are the ones that the third is told, in any interleaving of their threads. What else
 the two sides see of each other, the shared flags and the application state, comes in as inputs
 of any value.
 */
module WholeSystem {
  import opened Prelude
  import opened EventBus
  import opened LinkRegistry
  import WifiFsm
  import WifiRuns
  import BtPan
  import NatBridge

  /** WiFi is link 0 of NAT switching, Bluetooth link 1. */
  datatype State = State(wifi: WifiFsm.State, bt: BtPan.State, nat': NatBridge.State)

  datatype Act =
    | OfWifi(input: WifiFsm.Input)
    | OfBt(act: BtPan.Act)
    | OfNat(step: NatBridge.Act)

  predicate Shape(s: State) {
    WifiFsm.Shape(s.wifi) && NatBridge.Shape(s.nat') && s.nat'.links == NatBridge.BootLinks()
  }

  /** What a handler has added to the published events. */
  function News(before: seq<EventType>, after: seq<EventType>): seq<EventType> {
    if |before| <= |after| then after[|before|..] else []
  }

  /** The role event that a handler publishes last, if any. */
  function Report(s: State, a: Act): Option<EventType>
    requires Shape(s)
    requires a.OfBt? ==> BtPan.CanAct(s.bt, a.act)
  {
    match a
    case OfWifi(i) => BtPan.LastRoleEvent(News(s.wifi.trace.published, WifiFsm.Step(s.wifi, i).trace.published))
    case OfBt(b) => BtPan.LastRoleEvent(News(s.bt.published, BtPan.Step(s.bt, b).published))
    case OfNat(_) => None
  }

  /** A link's thread publishes its role event before it handles anything that reports again. */
  predicate CanAct(s: State, a: Act)
    requires Shape(s)
  {
    match a
    case OfWifi(i) => Report(s, a).Some? ==> s.nat'.publishing[0].None?
    case OfBt(b) => BtPan.CanAct(s.bt, b) && (Report(s, a).Some? ==> s.nat'.publishing[1].None?)
    case OfNat(n) => !n.SetFlag? && NatBridge.CanAct(s.nat', n)
  }

  /** The flag of a link as its handler leaves it, with the role event still to be published. */
  function Told(n: NatBridge.State, link: nat, up: bool, report: Option<EventType>): NatBridge.State
    requires link < |n.up| == |n.publishing|
  {
    n.(up := n.up[link := up],
       publishing := if report.Some? then n.publishing[link := report] else n.publishing)
  }

  function Step(s: State, a: Act): State
    requires Shape(s) && CanAct(s, a)
  {
    match a
    case OfWifi(i) =>
      var w := WifiFsm.Step(s.wifi, i);
      State(w, s.bt, Told(s.nat', 0, w.shared.wifiConnected, Report(s, a)))
    case OfBt(b) =>
      var r := BtPan.Step(s.bt, b);
      State(s.wifi, r, Told(s.nat', 1, r.connected, Report(s, a)))
    case OfNat(n) => s.(nat' := NatBridge.Step(s.nat', n))
  }

  // ---- The handlers tell NAT what they do ------------------------------------------------------------

  lemma LastOfTwo(e: EventType, role: EventType)
    requires IsRoleEvent(role)
    ensures BtPan.LastRoleEvent([role]) == BtPan.LastRoleEvent([e, role]) == Some(role)
  {
  }

  /** The WiFi worker's flag changes only with its role event as the last one published. */
  lemma WifiReports(s: State, i: WifiFsm.Input)
    requires Shape(s)
    ensures var r, report := WifiFsm.Step(s.wifi, i), Report(s, OfWifi(i));
            && (report.None? ==> r.shared.wifiConnected == s.wifi.shared.wifiConnected)
            && (report.Some? ==> report.value == NatBridge.RoleEvent(Uplink, r.shared.wifiConnected))
  {
    var before, after := s.wifi.trace.published, WifiFsm.Step(s.wifi, i).trace.published;
    WifiPublishes(s.wifi, i);
    if after != before {
      var up := WifiFsm.Step(s.wifi, i).shared.wifiConnected;
      LastOfTwo(if up then WifiUp else WifiDown, NatBridge.RoleEvent(Uplink, up));
    }
  }

  predicate PublishesUplink(before: seq<EventType>, after: seq<EventType>, up: bool) {
    var role, change := NatBridge.RoleEvent(Uplink, up), if up then WifiUp else WifiDown;
    after == before + [role] || after == before + [change, role]
  }

  ghost predicate WifiTells(s: WifiFsm.State, r: WifiFsm.State) {
    || (r.trace.published == s.trace.published && r.shared.wifiConnected == s.shared.wifiConnected)
    || PublishesUplink(s.trace.published, r.trace.published, r.shared.wifiConnected)
  }

  /** Nothing is published at rest. */
  lemma SilentInIdle(s: WifiFsm.State, i: WifiFsm.Input)
    requires WifiFsm.Shape(s) && s.ctl.fsm == WifiFsm.Idle
    ensures var r := WifiFsm.Step(s, i);
            r.trace.published == s.trace.published && r.shared.wifiConnected == s.shared.wifiConnected
  {
  }

  lemma SilentInRetryWait(s: WifiFsm.State, i: WifiFsm.Input)
    requires WifiFsm.Shape(s) && s.ctl.fsm == WifiFsm.RetryWait
    ensures var r := WifiFsm.Step(s, i);
            r.trace.published == s.trace.published && r.shared.wifiConnected == s.shared.wifiConnected
  {
  }

  lemma TellsWhileConnecting(s: WifiFsm.State, i: WifiFsm.Input)
    requires WifiFsm.Shape(s) && s.ctl.fsm == WifiFsm.Connecting
    ensures WifiTells(s, WifiFsm.Step(s, i))
  {
  }

  lemma TellsWhileConnected(s: WifiFsm.State, i: WifiFsm.Input)
    requires WifiFsm.Shape(s) && s.ctl.fsm == WifiFsm.Connected
    ensures WifiTells(s, WifiFsm.Step(s, i))
  {
  }

  lemma WifiPublishes(s: WifiFsm.State, i: WifiFsm.Input)
    requires WifiFsm.Shape(s)
    ensures WifiTells(s, WifiFsm.Step(s, i))
  {
    match s.ctl.fsm
    case Idle => SilentInIdle(s, i);
    case RetryWait => SilentInRetryWait(s, i);
    case Connecting => TellsWhileConnecting(s, i);
    case Connected => TellsWhileConnected(s, i);
    case Recovering =>
  }

  /** So does the Bluetooth flag. */
  lemma BtReports(s: State, b: BtPan.Act)
    requires Shape(s) && BtPan.CanAct(s.bt, b)
    ensures var r, report := BtPan.Step(s.bt, b), Report(s, OfBt(b));
            && (report.None? ==> r.connected == s.bt.connected)
            && (report.Some? ==> report.value == NatBridge.RoleEvent(Downlink, r.connected))
  {
    match b
    case ChannelOpened(status, link) =>
      BtPan.OpenExactly(s.bt, status, link);
      LastOfTwo(BtUp, DownlinkUp);
    case ChannelClosed(timer) =>
      BtPan.CloseExactly(s.bt, timer);
      LastOfTwo(BtDown, DownlinkDown);
    case _ =>
      BtPan.OthersPublishNothing(s.bt, b);
  }

  // ---- The system is NAT switching under its two links --------------------------------------------------

  /** The flags that NAT switching reads are those of the two handlers. */
  predicate Tied(s: State) {
    && Shape(s) && NatBridge.OnNeedsNetif(s.nat')
    && s.nat'.up == [s.wifi.shared.wifiConnected, s.bt.connected]
  }

  /** What an act of the system is to NAT switching, if anything. */
  function NatActOf(s: State, a: Act): Option<NatBridge.Act>
    requires Shape(s) && CanAct(s, a)
  {
    match a
    case OfWifi(i) =>
      if Report(s, a).None? then None
      else Some(NatBridge.SetFlag(0, WifiFsm.Step(s.wifi, i).shared.wifiConnected))
    case OfBt(b) =>
      if Report(s, a).None? then None else Some(NatBridge.SetFlag(1, BtPan.Step(s.bt, b).connected))
    case OfNat(n) => Some(n)
  }

  /** Every act of the system is nothing to NAT switching, or one of its own acts. */
  lemma Refines(s: State, a: Act)
    requires Tied(s) && CanAct(s, a)
    ensures match NatActOf(s, a)
            case None => Step(s, a).nat' == s.nat'
            case Some(n) => NatBridge.CanAct(s.nat', n) && Step(s, a).nat' == NatBridge.Step(s.nat', n)
  {
    match a
    case OfWifi(i) => WifiReports(s, i);
    case OfBt(b) => BtReports(s, b);
    case OfNat(_) =>
  }

  /** An act after which an update is due. */
  predicate MakesUpdateDue(s: State, a: Act)
    requires Shape(s) && CanAct(s, a)
  {
    NatActOf(s, a).Some? && NatBridge.MakesUpdateDue(NatActOf(s, a).value)
  }

  predicate NetifTooLate(s: State, a: Act)
    requires Shape(s)
  {
    a.OfNat? && NatBridge.NetifTooLate(s.nat', a.step)
  }

  lemma TiedKept(s: State, a: Act)
    requires Tied(s) && CanAct(s, a)
    ensures Tied(Step(s, a)) && (MakesUpdateDue(s, a) ==> NatBridge.Inv(Step(s, a).nat'))
  {
    Refines(s, a);
    if NatActOf(s, a).Some? {
      NatBridge.OnNeedsNetifKept(s.nat', NatActOf(s, a).value);
    }
    UpKept(s, a);
  }

  lemma UpKept(s: State, a: Act)
    requires Tied(s) && CanAct(s, a)
    ensures var r := Step(s, a); r.nat'.up == [r.wifi.shared.wifiConnected, r.bt.connected]
  {
  }

  lemma InvKept(s: State, a: Act)
    requires Tied(s) && CanAct(s, a) && NatBridge.Inv(s.nat') && !NetifTooLate(s, a)
    ensures NatBridge.Inv(Step(s, a).nat')
  {
    Refines(s, a);
    if NatActOf(s, a).Some? {
      NatBridge.InvKeptExactly(s.nat', NatActOf(s, a).value);
    }
  }

  // ---- Runs of the whole system -----------------------------------------------------------------------------

  predicate IsBoot(s: State) {
    WifiFsm.IsInitial(s.wifi) && BtPan.IsBoot(s.bt) && NatBridge.Shape(s.nat') && NatBridge.IsBoot(s.nat')
  }

  ghost predicate IsRun(trace: seq<State>, acts: seq<Act>) {
    && |trace| == |acts| + 1 && IsBoot(trace[0])
    && (forall k :: 0 <= k < |trace| ==> Shape(trace[k]))
    && (forall k :: 0 <= k < |acts| ==> CanAct(trace[k], acts[k]) && trace[k + 1] == Step(trace[k], acts[k]))
  }

  lemma RunStep(trace: seq<State>, acts: seq<Act>, k: nat)
    requires IsRun(trace, acts) && k < |acts|
    ensures CanAct(trace[k], acts[k]) && trace[k + 1] == Step(trace[k], acts[k])
  {
  }

  lemma {:induction false} TiedAt(trace: seq<State>, acts: seq<Act>, k: nat)
    requires IsRun(trace, acts) && k < |trace|
    ensures Tied(trace[k])
  {
    if k > 0 {
      TiedAt(trace, acts, k - 1);
      RunStep(trace, acts, k - 1);
      TiedKept(trace[k - 1], acts[k - 1]);
    }
  }

  /** From act `m` on no interface is late; `m` is 0 or follows a report or a publication. */
  ghost predicate NoneLateFrom(trace: seq<State>, acts: seq<Act>, m: nat)
    requires IsRun(trace, acts)
  {
    && m <= |acts| && (m > 0 ==> MakesUpdateDue(trace[m - 1], acts[m - 1]))
    && forall k :: m <= k < |acts| ==> !NetifTooLate(trace[k], acts[k])
  }

  lemma {:induction false} InvAt(trace: seq<State>, acts: seq<Act>, m: nat, k: nat)
    requires IsRun(trace, acts) && NoneLateFrom(trace, acts, m) && m <= k < |trace|
    ensures NatBridge.Inv(trace[k].nat')
  {
    if k > m {
      InvAt(trace, acts, m, k - 1);
      TiedAt(trace, acts, k - 1);
      InvNext(trace, acts, k - 1);
    } else {
      InvStarts(trace, acts, m);
    }
  }

  lemma InvNext(trace: seq<State>, acts: seq<Act>, k: nat)
    requires IsRun(trace, acts) && k < |acts|
    requires Tied(trace[k]) && NatBridge.Inv(trace[k].nat') && !NetifTooLate(trace[k], acts[k])
    ensures NatBridge.Inv(trace[k + 1].nat')
  {
    RunStep(trace, acts, k);
    InvKept(trace[k], acts[k]);
  }

  lemma InvStarts(trace: seq<State>, acts: seq<Act>, m: nat)
    requires IsRun(trace, acts) && NoneLateFrom(trace, acts, m)
    ensures NatBridge.Inv(trace[m].nat')
  {
    if m > 0 {
      TiedAt(trace, acts, m - 1);
      RunStep(trace, acts, m - 1);
      TiedKept(trace[m - 1], acts[m - 1]);
    } else {
      NatBridge.BootIsGood(trace[0].nat');
    }
  }

  /** A recovery that the worker handles while connected. */
  predicate RecoversWhileConnected(s: State, a: Act) {
    a.OfWifi? && WifiRuns.RecoversWhileConnected(s.wifi, a.input)
  }

  lemma TrackedKept(s: State, a: Act)
    requires Shape(s) && CanAct(s, a) && WifiRuns.UplinkTracked(s.wifi) && !RecoversWhileConnected(s, a)
    ensures WifiRuns.UplinkTracked(Step(s, a).wifi)
  {
    if a.OfWifi? { WifiRuns.UplinkTrackedExactly(s.wifi, a.input); }
  }

  lemma {:induction false} TrackedAt(trace: seq<State>, acts: seq<Act>, k: nat)
    requires IsRun(trace, acts) && k < |trace|
    requires forall n :: 0 <= n < |acts| ==> !RecoversWhileConnected(trace[n], acts[n])
    ensures WifiRuns.UplinkTracked(trace[k].wifi)
  {
    if k > 0 {
      TrackedAt(trace, acts, k - 1);
      RunStep(trace, acts, k - 1);
      TrackedKept(trace[k - 1], acts[k - 1]);
    } else {
      WifiRuns.InitialIsGood(trace[0].wifi);
    }
  }

  /** The Bluetooth interface has NAT exactly while the WiFi worker is in its connected state. */
  predicate Bridges(s: State, n: NatBridge.State) {
    |n.netif| == |n.enabled| == 2 && (s.bt.connected && n.netif[1] ==> (n.enabled[1] <==> s.wifi.ctl.fsm == WifiFsm.Connected))
  }

  lemma CorrectBridges(s: State, n: NatBridge.State)
    requires Tied(s) && WifiRuns.UplinkTracked(s.wifi)
    requires NatBridge.Shape(n) && n.links == s.nat'.links && n.up == s.nat'.up && NatBridge.NatCorrect(n)
    ensures Bridges(s, n)
  {
    NatBridge.BootLinksServe(n);
  }

  /**
   Over every run of the whole system from boot, whenever nothing is queued, running, or between a
   flag and its event, a phone on Bluetooth has NAT exactly while the WiFi worker is connected.
   And whenever no event is outstanding, the lwIP thread left alone gets there.
   */
  lemma InternetFollowsWifi(trace: seq<State>, acts: seq<Act>, m: nat)
    requires IsRun(trace, acts) && NoneLateFrom(trace, acts, m)
    requires forall k :: 0 <= k < |acts| ==> !RecoversWhileConnected(trace[k], acts[k])
    ensures var s := trace[|acts|];
            && (NatBridge.Settled(s.nat') && s.nat'.pc == NatBridge.Resting ==> Bridges(s, s.nat'))
            && (s.nat'.publishing == [None, None] ==> Bridges(s, NatBridge.Drained(s.nat')))
  {
    var s := trace[|acts|];
    TiedAt(trace, acts, |acts|);
    InvAt(trace, acts, m, |acts|);
    TrackedAt(trace, acts, |acts|);
    if NatBridge.Settled(s.nat') && s.nat'.pc == NatBridge.Resting {
      CorrectBridges(s, s.nat');
    }
    if s.nat'.publishing == [None, None] {
      NatBridge.QuietSystemConverges(s.nat');
      CorrectBridges(s, NatBridge.Drained(s.nat'));
    }
  }
}
