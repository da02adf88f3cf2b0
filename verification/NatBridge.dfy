/**
 NAT switching, `main/nat_bridge.c`, as an interleaved system. Each link has a thread that sets
 the link's flag and then publishes its role event; the event's handler queues an update for the
 lwIP thread, which later re-reads the flags one at a time and switches NAT. Any number of links
 up to the registry's size may take either role.
 */
module NatBridge {
  import opened Prelude
  import opened EventBus
  import opened LinkRegistry

  /** Where the lwIP thread is inside `update_nat_lwip_ctx`. */
  datatype Pc =
    | Resting
    | SeekDown(i: nat)
    | HaveDown(down: nat)
    | SeekUp(down: nat, i: nat)
    | Applying(down: nat, on: bool)

  datatype State = State(
    links: seq<Link>,
    up: seq<bool>,                          // each link's connected flag
    netif: seq<bool>,                       // whether the link's lwIP interface exists
    publishing: seq<Option<EventType>>,     // flag set, event not yet published
    queued: nat,                            // updates waiting for the lwIP thread
    pc: Pc,
    enabled: seq<bool>)                     // NAT on the link's interface

  datatype Act =
    | SetFlag(link: nat, connected: bool)
    | Publish(link: nat)
    | NetifAppears(link: nat)
    | LwipStep

  predicate Shape(s: State) {
    && |s.links| == |s.up| == |s.netif| == |s.publishing| == |s.enabled|
    && (forall i :: 0 <= i < |s.publishing| ==> s.publishing[i].Some? ==> IsRoleEvent(s.publishing[i].value))
    && match s.pc
       case Resting => true
       case SeekDown(i) => i <= |s.links|
       case HaveDown(d) => d < |s.links|
       case SeekUp(d, i) => d < |s.links| && i <= |s.links|
       case Applying(d, _) => d < |s.links|
  }

  function RoleEvent(role: Role, connected: bool): (e: EventType)
    ensures IsRoleEvent(e)
  {
    match role
    case Downlink => if connected then DownlinkUp else DownlinkDown
    case Uplink => if connected then UplinkUp else UplinkDown
  }

  /** How many updates a publication queues. */
  function UpdatesQueued(handlers: seq<Handler>): nat {
    if handlers == [] then 0
    else UpdatesQueued(handlers[..|handlers| - 1]) + (if handlers[|handlers| - 1] == OnBridgeEvent then 1 else 0)
  }

  predicate CanAct(s: State, a: Act)
    requires Shape(s)
  {
    match a
    case SetFlag(i, _) => i < |s.links| && s.publishing[i].None?
    case Publish(i) => i < |s.links| && s.publishing[i].Some?
    case NetifAppears(i) => i < |s.links|
    case LwipStep => s.pc != Resting || s.queued > 0
  }

  function LwipStepped(s: State): (r: State)
    requires Shape(s) && CanAct(s, LwipStep)
    ensures Shape(r)
  {
    match s.pc
    case Resting => s.(queued := s.queued - 1, pc := SeekDown(0))
    case SeekDown(i) =>
      if i == |s.links| then s.(pc := Resting)
      else if Serves(s.links, s.up, Downlink, i) then s.(pc := HaveDown(i))
      else s.(pc := SeekDown(i + 1))
    case HaveDown(d) => s.(pc := if s.netif[d] then SeekUp(d, 0) else Resting)
    case SeekUp(d, i) =>
      if i == |s.links| then s.(pc := Applying(d, false))
      else if Serves(s.links, s.up, Uplink, i) then s.(pc := Applying(d, true))
      else s.(pc := SeekUp(d, i + 1))
    case Applying(d, on) => s.(pc := Resting, enabled := s.enabled[d := on])
  }

  function Step(s: State, a: Act): (r: State)
    requires Shape(s) && CanAct(s, a)
    ensures Shape(r) && r.links == s.links
  {
    match a
    case SetFlag(i, connected) =>
      s.(up := s.up[i := connected], publishing := s.publishing[i := Some(RoleEvent(s.links[i].role, connected))])
    case Publish(i) =>
      s.(publishing := s.publishing[i := None],
         queued := s.queued + UpdatesQueued(BootTable()[Code(s.publishing[i].value)]))
    case NetifAppears(i) => s.(netif := s.netif[i := true])
    case LwipStep => LwipStepped(s)
  }

  // ---- No lost update --------------------------------------------------------------------------

  /** Nothing queued, and no thread between its flag and its event. */
  predicate Settled(s: State)
    requires Shape(s)
  {
    s.queued == 0 && forall i :: 0 <= i < |s.links| ==> s.publishing[i].None?
  }

  function Down(s: State, from: nat): Option<nat>
    requires Shape(s) && from <= |s.links|
  {
    FirstServing(s.links, s.up, Downlink, from)
  }

  function Up(s: State, from: nat): Option<nat>
    requires Shape(s) && from <= |s.links|
  {
    FirstServing(s.links, s.up, Uplink, from)
  }

  /** NAT on the serving downlink is on exactly when some uplink is connected. */
  predicate NatCorrect(s: State)
    requires Shape(s)
  {
    Down(s, 0).Some? && s.netif[Down(s, 0).value] ==>
      s.enabled[Down(s, 0).value] == Up(s, 0).Some?
  }

  /** What a running update has already read is still what it would read now. */
  predicate ReadsAreCurrent(s: State)
    requires Shape(s)
  {
    match s.pc
    case Resting => NatCorrect(s)
    case SeekDown(i) => Down(s, 0) == Down(s, i)
    case HaveDown(d) => Down(s, 0) == Some(d)
    case SeekUp(d, i) => Down(s, 0) == Some(d) && Up(s, 0) == Up(s, i)
    case Applying(d, on) => Down(s, 0) == Some(d) && on == Up(s, 0).Some?
  }

  /** NAT is only ever on where an interface exists. */
  predicate OnNeedsNetif(s: State)
    requires Shape(s)
  {
    && (forall i :: 0 <= i < |s.links| && s.enabled[i] ==> s.netif[i])
    && (s.pc.SeekUp? || s.pc.Applying? ==> s.netif[s.pc.down])
  }

  predicate Inv(s: State) {
    Shape(s) && OnNeedsNetif(s) && (Settled(s) ==> ReadsAreCurrent(s))
  }

  /** The interface of the serving downlink shows up when everything has already been evaluated. */
  predicate NetifTooLate(s: State, a: Act)
    requires Shape(s)
  {
    && a.NetifAppears? && a.link < |s.links| && !s.netif[a.link]
    && Settled(s) && s.pc == Resting && Down(s, 0) == Some(a.link) && Up(s, 0).Some?
  }

  lemma PublishQueuesOne(e: EventType)
    requires IsRoleEvent(e)
    ensures UpdatesQueued(BootTable()[Code(e)]) == 1
  {
    RoleEventsReachTheBridge(e);
    assert [OnBridgeEvent][..0] == [];
  }

  lemma SeekDownKeepsInv(s: State)
    requires Inv(s) && s.pc.SeekDown?
    ensures Inv(LwipStepped(s))
  {
  }

  lemma SeekUpKeepsInv(s: State)
    requires Inv(s) && s.pc.SeekUp?
    ensures Inv(LwipStepped(s))
  {
  }

  lemma OthersKeepInv(s: State)
    requires Inv(s) && CanAct(s, LwipStep) && !s.pc.SeekDown? && !s.pc.SeekUp?
    ensures Inv(LwipStepped(s))
  {
  }

  lemma LwipStepKeepsInv(s: State)
    requires Inv(s) && CanAct(s, LwipStep)
    ensures Inv(LwipStepped(s))
  {
    match s.pc
    case SeekDown(_) => SeekDownKeepsInv(s);
    case SeekUp(_, _) => SeekUpKeepsInv(s);
    case _ => OthersKeepInv(s);
  }

  lemma InvKeptExactly(s: State, a: Act)
    requires Inv(s) && CanAct(s, a)
    ensures Inv(Step(s, a)) <==> !NetifTooLate(s, a)
  {
    match a
    case SetFlag(i, connected) =>
      assert Step(s, a).publishing[i].Some?;
    case Publish(i) =>
      PublishQueuesOne(s.publishing[i].value);
    case NetifAppears(i) =>
    case LwipStep =>
      LwipStepKeepsInv(s);
  }

  /** A run: `trace[k + 1]` follows from `trace[k]` by `acts[k]`. */
  ghost predicate IsRun(trace: seq<State>, acts: seq<Act>) {
    && |trace| == |acts| + 1
    && (forall k :: 0 <= k < |trace| ==> Shape(trace[k]))
    && (forall k :: 0 <= k < |acts| ==> CanAct(trace[k], acts[k]) && trace[k + 1] == Step(trace[k], acts[k]))
  }

  /** An act after which an update is due, whatever was missed before it. */
  predicate MakesUpdateDue(a: Act) {
    a.SetFlag? || a.Publish?
  }

  lemma OnNeedsNetifKept(s: State, a: Act)
    requires Shape(s) && OnNeedsNetif(s) && CanAct(s, a)
    ensures OnNeedsNetif(Step(s, a)) && (MakesUpdateDue(a) ==> Inv(Step(s, a)))
  {
    match a
    case SetFlag(i, connected) =>
      assert Step(s, a).publishing[i].Some?;
    case Publish(i) =>
      PublishQueuesOne(s.publishing[i].value);
    case NetifAppears(i) =>
    case LwipStep =>
  }

  lemma RunStep(trace: seq<State>, acts: seq<Act>, k: nat)
    requires IsRun(trace, acts) && k < |acts|
    ensures CanAct(trace[k], acts[k]) && trace[k + 1] == Step(trace[k], acts[k])
  {
  }

  lemma {:induction false} OnNeedsNetifAt(trace: seq<State>, acts: seq<Act>, k: nat)
    requires IsRun(trace, acts) && OnNeedsNetif(trace[0]) && k < |trace|
    ensures OnNeedsNetif(trace[k])
  {
    if k > 0 {
      OnNeedsNetifAt(trace, acts, k - 1);
      RunStep(trace, acts, k - 1);
      OnNeedsNetifKept(trace[k - 1], acts[k - 1]);
    }
  }

  lemma InvNext(trace: seq<State>, acts: seq<Act>, k: nat)
    requires IsRun(trace, acts) && k < |acts| && Inv(trace[k]) && !NetifTooLate(trace[k], acts[k])
    ensures Inv(trace[k + 1])
  {
    RunStep(trace, acts, k);
    InvKeptExactly(trace[k], acts[k]);
  }

  lemma {:induction false} InvFrom(trace: seq<State>, acts: seq<Act>, m: nat, k: nat)
    requires IsRun(trace, acts) && m <= k < |trace| && Inv(trace[m])
    requires forall n :: m <= n < |acts| ==> !NetifTooLate(trace[n], acts[n])
    ensures Inv(trace[k])
  {
    if k > m {
      InvFrom(trace, acts, m, k - 1);
      InvNext(trace, acts, k - 1);
    }
  }

  /** From act `m` on no interface is late, and `acts[m - 1]`, if there is one, sets a flag or publishes. */
  ghost predicate NoneLateFrom(trace: seq<State>, acts: seq<Act>, m: nat)
    requires IsRun(trace, acts)
  {
    && m <= |acts| && (m > 0 ==> MakesUpdateDue(acts[m - 1]))
    && (forall k :: m <= k < |acts| ==> !NetifTooLate(trace[k], acts[k]))
  }

  /** And the run starts right, if there is no such act. */
  ghost predicate RightFrom(trace: seq<State>, acts: seq<Act>, m: nat)
    requires IsRun(trace, acts)
  {
    NoneLateFrom(trace, acts, m) && OnNeedsNetif(trace[0]) && (m == 0 ==> Inv(trace[0]))
  }

  /**
   Under any interleaving, whenever nothing is queued, running, or between a flag and its
   event, NAT agrees with the flags. What an interface that came too late has broken is
   repaired by the next flag or event.
   */
  lemma NoLostUpdate(trace: seq<State>, acts: seq<Act>, m: nat)
    requires IsRun(trace, acts) && RightFrom(trace, acts, m)
    ensures Inv(trace[|acts|])
    ensures Settled(trace[|acts|]) && trace[|acts|].pc == Resting ==> NatCorrect(trace[|acts|])
  {
    if m > 0 {
      OnNeedsNetifAt(trace, acts, m - 1);
      OnNeedsNetifKept(trace[m - 1], acts[m - 1]);
    }
    InvFrom(trace, acts, m, |acts|);
  }

  // ---- Convergence ----------------------------------------------------------------------------------

  function PcWork(n: nat, pc: Pc): int {
    match pc
    case Resting => 0
    case SeekDown(i) => 2 * n + 4 - i
    case HaveDown(d) => n + 3
    case SeekUp(d, i) => n + 2 - i
    case Applying(d, on) => 1
  }

  function Work(s: State): int {
    s.queued * (2 * |s.links| + 5) + PcWork(|s.links|, s.pc)
  }

  lemma OneLess(n: nat, c: nat)
    requires n > 0
    ensures (n - 1) * c == n * c - c && n * c >= 0
  {
  }

  lemma LwipStepWorks(s: State)
    requires Shape(s) && CanAct(s, LwipStep)
    ensures 0 <= Work(LwipStepped(s)) < Work(s)
  {
    if s.pc == Resting {
      OneLess(s.queued, 2 * |s.links| + 5);
    }
  }

  /** The lwIP thread left alone until it has nothing to do. */
  function Drained(s: State): State
    requires Shape(s)
    decreases Work(s)
  {
    if CanAct(s, LwipStep) then
      LwipStepWorks(s);
      Drained(LwipStepped(s))
    else s
  }

  /** Left alone with no event outstanding, the lwIP thread stops with NAT agreeing with the flags. */
  lemma {:induction false} QuietSystemConverges(s: State)
    requires Inv(s) && forall i :: 0 <= i < |s.links| ==> s.publishing[i].None?
    ensures var r := Drained(s);
            Inv(r) && Settled(r) && r.pc == Resting && r.up == s.up && r.links == s.links && NatCorrect(r)
    decreases Work(s)
  {
    if CanAct(s, LwipStep) {
      InvKeptExactly(s, LwipStep);
      LwipStepWorks(s);
      QuietSystemConverges(LwipStepped(s));
    }
  }

  // ---- The callback run without interference ------------------------------------------------------------

  /** What one uninterrupted update does to NAT. */
  function Evaluated(links: seq<Link>, up: seq<bool>, netif: seq<bool>, enabled: seq<bool>): (r: seq<bool>)
    requires |links| == |up| == |netif| == |enabled|
    ensures |r| == |enabled|
  {
    var down := FirstServing(links, up, Downlink, 0);
    if down.None? || !netif[down.value] then enabled
    else enabled[down.value := FirstServing(links, up, Uplink, 0).Some?]
  }

  /** The steps of an update, taken in a row, are that evaluation of what is still unread. */
  lemma {:induction false} UninterruptedUpdate(s: State)
    requires Shape(s) && s.queued == 0
    requires s.pc.SeekDown? ==> Down(s, 0) == Down(s, s.pc.i)
    requires s.pc.HaveDown? ==> Down(s, 0) == Some(s.pc.down)
    requires s.pc.SeekUp? ==> Down(s, 0) == Some(s.pc.down) && s.netif[s.pc.down] && Up(s, 0) == Up(s, s.pc.i)
    requires s.pc.Applying? ==>
               Down(s, 0) == Some(s.pc.down) && s.netif[s.pc.down] && s.pc.on == Up(s, 0).Some?
    requires s.pc != Resting
    ensures Drained(s) == s.(pc := Resting, enabled := Evaluated(s.links, s.up, s.netif, s.enabled))
    decreases Work(s)
  {
    var r := LwipStepped(s);
    LwipStepWorks(s);
    if r.pc != Resting {
      UninterruptedUpdate(r);
    } else {
      assert Drained(s) == Drained(r) == r;
    }
  }

  /** `update_nat_lwip_ctx` itself. */
  method UpdateNat(registry: Registry, up: seq<bool>, netif: seq<bool>, enabled: array<bool>)
    requires registry.Valid()
    requires registry.linkCount == |up| == |netif| == enabled.Length
    modifies enabled
    ensures enabled[..] == Evaluated(registry.View(), up, netif, old(enabled[..]))
  {
    var down := registry.FindConnected(Downlink, up);
    if down.None? { return; }
    if !netif[down.value] { return; }
    var uplink := registry.FindConnected(Uplink, up);
    enabled[down.value] := uplink.Some?;
  }

  /** Nothing but the end of an update switches NAT, and that on one interface only. */
  lemma OnlyUpdatesSwitch(s: State, a: Act, i: nat)
    requires Shape(s) && CanAct(s, a) && i < |s.links|
    ensures Step(s, a).enabled[i] != s.enabled[i] ==> a == LwipStep && s.pc.Applying? && s.pc.down == i
    ensures a != LwipStep ==> Step(s, a).pc == s.pc
  {
  }

  // ---- The two links of the firmware ---------------------------------------------------------------------

  const WIFI_STA := Link("wifi_sta", Uplink, true)
  const BT_PAN := Link("bt_pan", Downlink, true)

  /** Registration order at boot: WiFi first, then Bluetooth PAN. */
  function BootLinks(): seq<Link> {
    Registered(Registered([], Some(WIFI_STA)), Some(BT_PAN))
  }

  predicate IsBoot(s: State) {
    && s.links == BootLinks() && s.up == [false, false] && s.publishing == [None, None]
    && |s.netif| == 2 && s.queued == 0 && s.pc == Resting && s.enabled == [false, false]
  }

  lemma BootIsGood(s: State)
    requires IsBoot(s)
    ensures Inv(s)
  {
  }

  lemma BootLinksServe(s: State)
    requires Shape(s) && s.links == BootLinks()
    ensures |s.links| == 2
    ensures Serves(s.links, s.up, Downlink, 1) <==> s.up[1]
    ensures Serves(s.links, s.up, Uplink, 0) <==> s.up[0]
    ensures !Serves(s.links, s.up, Downlink, 0) && !Serves(s.links, s.up, Uplink, 1)
  {
  }

  /** For WiFi over Bluetooth: NAT is on exactly when the WiFi flag is set. */
  lemma NatFollowsWifi(trace: seq<State>, acts: seq<Act>, m: nat)
    requires IsRun(trace, acts) && IsBoot(trace[0]) && NoneLateFrom(trace, acts, m)
    ensures var s := trace[|acts|];
            |s.links| == 2 &&
            (s.up[1] && s.netif[1] && Settled(s) && s.pc == Resting ==> (s.enabled[1] <==> s.up[0]))
  {
    BootIsGood(trace[0]);
    NoLostUpdate(trace, acts, m);
    LinksStay(trace, acts);
    BootLinksServe(trace[|acts|]);
  }

  /** The callback on the boot links when both are up and the downlink has no interface yet. */
  lemma UpdateWithoutNetif(s: State)
    requires Shape(s) && s.links == BootLinks() && s.up == [true, true] && !s.netif[1]
    requires s.pc == Resting && s.queued > 0
    ensures var s1 := LwipStepped(s);
            var s2 := LwipStepped(s1);
            var s3 := LwipStepped(s2);
            && s1 == s.(queued := s.queued - 1, pc := SeekDown(0))
            && s2 == s1.(pc := SeekDown(1)) && s3 == s1.(pc := HaveDown(1))
            && LwipStepped(s3) == s1.(pc := Resting)
  {
    BootLinksServe(s);
  }

  /** One act more at the end of a run. */
  lemma Extend(trace: seq<State>, acts: seq<Act>, a: Act) returns (trace': seq<State>, acts': seq<Act>)
    requires IsRun(trace, acts) && CanAct(trace[|acts|], a)
    ensures IsRun(trace', acts') && trace'[0] == trace[0] && trace'[|acts'|] == Step(trace[|acts|], a)
  {
    trace', acts' := trace + [Step(trace[|acts|], a)], acts + [a];
  }

  /** A link's thread sets its flag and publishes. */
  lemma LinkComesUp(start: seq<State>, done: seq<Act>, i: nat) returns (trace: seq<State>, acts: seq<Act>)
    requires IsRun(start, done) && i < |start[|done|].links| && start[|done|].publishing[i].None?
    ensures IsRun(trace, acts) && trace[0] == start[0]
    ensures var s := start[|done|]; trace[|acts|] == s.(up := s.up[i := true], queued := s.queued + 1)
  {
    var s := start[|done|];
    trace, acts := Extend(start, done, SetFlag(i, true));
    PublishQueuesOne(RoleEvent(s.links[i].role, true));
    trace, acts := Extend(trace, acts, Publish(i));
    assert trace[|acts|].publishing == s.publishing;
  }

  lemma UpdateFindsNoNetif(start: seq<State>, done: seq<Act>) returns (trace: seq<State>, acts: seq<Act>)
    requires IsRun(start, done)
    requires var s := start[|done|];
             s.links == BootLinks() && s.up == [true, true] && !s.netif[1] && s.pc == Resting && s.queued > 0
    ensures IsRun(trace, acts) && trace[0] == start[0]
    ensures var s := start[|done|]; trace[|acts|] == s.(queued := s.queued - 1)
  {
    UpdateWithoutNetif(start[|done|]);
    trace, acts := Extend(start, done, LwipStep);
    trace, acts := Extend(trace, acts, LwipStep);
    trace, acts := Extend(trace, acts, LwipStep);
    trace, acts := Extend(trace, acts, LwipStep);
  }

  /** From boot: both links come up and are evaluated before the downlink has its interface. */
  lemma LateInterfaceLosesNat(boot: State) returns (trace: seq<State>, acts: seq<Act>)
    requires IsBoot(boot) && boot.netif == [false, false]
    ensures IsRun(trace, acts) && trace[0] == boot
    ensures var s := trace[|acts|];
            s.up == [true, true] && s.netif[1] && Settled(s) && s.pc == Resting && !s.enabled[1] && !NatCorrect(s)
  {
    trace, acts := LinkComesUp([boot], [], 0);
    trace, acts := LinkComesUp(trace, acts, 1);
    trace, acts := UpdateFindsNoNetif(trace, acts);
    trace, acts := UpdateFindsNoNetif(trace, acts);
    trace, acts := Extend(trace, acts, NetifAppears(1));
    BootLinksServe(trace[|acts|]);
  }

  lemma {:induction false} LinksStay(trace: seq<State>, acts: seq<Act>)
    requires IsRun(trace, acts)
    ensures trace[|acts|].links == trace[0].links
  {
    if |acts| > 0 {
      var n := |acts| - 1;
      LinksStay(trace[..n + 1], acts[..n]);
    }
  }
}
