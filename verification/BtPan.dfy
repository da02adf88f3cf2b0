/**
 Visibility of the Bluetooth side, `main/bt_pan.c`. Handlers and the reopen callback run on the
 BTstack main thread; the reopen timer runs on the timer thread and may fire in between, also
 while the callback itself is part-way through.
 */
module BtPan {
  import opened Prelude
  import opened EventBus
  import opened AppState

  const INVALID_HANDLE: int := 0xFFFF
  type Handle = h: int | 0 <= h <= 0xFFFF

  datatype State = State(
    connected: bool, handle: Handle, visible: bool,
    reopenRunning: bool,
    timers: nat,        // started reopen timers that have not fired
    queued: nat,        // times the reopen callback sits in the main thread's queue
    inCallback: bool,   // the callback has run its visibility half, not yet cleared the flag
    wifiConnected: bool, app: App, published: seq<EventType>)

  /** How creating and starting a reopen timer went. */
  datatype TimerResult = Started | CreateFailed | StartFailed

  datatype Act =
    | ChannelOpened(status: Byte, link: Handle)
    | ChannelClosed(timer: TimerResult)
    | HciDisconnected(dropped: Handle, timer: TimerResult)
    | TimerFires
    | CallbackBegins
    | CallbackEnds
    | OtherTask(wifiConnected: bool, app: App)

  predicate CanAct(s: State, a: Act) {
    match a
    case ChannelOpened(_, _) => !s.inCallback
    case ChannelClosed(_) => !s.inCallback
    case HciDisconnected(_, _) => !s.inCallback
    case TimerFires => s.timers > 0
    case CallbackBegins => s.queued > 0 && !s.inCallback
    case CallbackEnds => s.inCallback
    case OtherTask(_, _) => true
  }

  // ---- What each act does ----------------------------------------------------------------

  /** `bt_schedule_reopen`, called with the guard flag already set. */
  function Scheduled(s: State, timer: TimerResult): State {
    if timer == Started then s.(timers := s.timers + 1) else s.(reopenRunning := false)
  }

  /** Claims the guard flag, and starts a timer unless someone holds it already. */
  function Reopening(s: State, timer: TimerResult): State {
    if s.reopenRunning then s else Scheduled(s.(reopenRunning := true), timer)
  }

  function SetConnected(s: State, connected: bool): State {
    s.(connected := connected,
       published := s.published
                    + (if s.connected == connected then [] else [if connected then BtUp else BtDown])
                    + [if connected then DownlinkUp else DownlinkDown])
  }

  function Step(s: State, a: Act): State
    requires CanAct(s, a)
  {
    match a
    case ChannelOpened(status, h) =>
      if status != 0 || s.connected then s
      else SetConnected(s, true).(handle := h, visible := false,
                                  app := if s.wifiConnected then Bridge else s.app)
    case ChannelClosed(timer) =>
      Reopening(SetConnected(s, false).(handle := INVALID_HANDLE, app := WaitBt), timer)
    case HciDisconnected(h, timer) =>
      if s.connected || h != s.handle then s
      else Reopening(s.(handle := INVALID_HANDLE), timer)
    case TimerFires => s.(timers := s.timers - 1, queued := s.queued + 1)
    case CallbackBegins =>
      s.(queued := s.queued - 1, inCallback := true, visible := s.visible || !s.connected)
    case CallbackEnds => s.(inCallback := false, reopenRunning := false)
    case OtherTask(w, app) => s.(wifiConnected := w, app := app)
  }

  // ---- The protocol's invariant -------------------------------------------------------------

  /** Reopens under way: a timer, a queue entry, or the callback itself. */
  function Outstanding(s: State): nat {
    s.timers + s.queued + (if s.inCallback then 1 else 0)
  }

  predicate Inv(s: State) {
    && Outstanding(s) == (if s.reopenRunning then 1 else 0)
    && (s.connected ==> !s.visible)
    && (!s.visible && !s.connected ==> s.timers + s.queued == 1)
    && (!s.connected ==> s.handle == INVALID_HANDLE)
  }

  /** The act asks for a reopen while none is under way. */
  predicate Schedules(s: State, a: Act) {
    && !s.reopenRunning
    && (a.ChannelClosed? || (a.HciDisconnected? && !s.connected && a.dropped == s.handle))
  }

  /** A hidden device asks for a reopen and gets no timer. */
  predicate LosesReopen(s: State, a: Act) {
    Schedules(s, a) && a.timer != Started && !s.visible
  }

  lemma InvKeptExactly(s: State, a: Act)
    requires Inv(s) && CanAct(s, a)
    ensures Inv(Step(s, a)) <==> !LosesReopen(s, a)
  {
  }

  predicate IsBoot(s: State) {
    && !s.connected && s.handle == INVALID_HANDLE && s.visible && !s.reopenRunning
    && s.timers == 0 && s.queued == 0 && !s.inCallback && s.published == []
  }

  ghost predicate IsRun(trace: seq<State>, acts: seq<Act>) {
    && |trace| == |acts| + 1
    && forall k :: 0 <= k < |acts| ==> CanAct(trace[k], acts[k]) && trace[k + 1] == Step(trace[k], acts[k])
  }

  /**
   Over every run with working timers: connected means hidden; hidden and not connected means a
   reopen is on its way; and the guard flag is set exactly while one reopen is outstanding, so
   the single callback registration is never queued twice.
   */
  lemma {:induction false} VisibilityOverRuns(trace: seq<State>, acts: seq<Act>)
    requires IsRun(trace, acts) && IsBoot(trace[0])
    requires forall k :: 0 <= k < |acts| ==> !LosesReopen(trace[k], acts[k])
    ensures Inv(trace[|acts|]) && trace[|acts|].queued <= 1
  {
    if |acts| > 0 {
      var n := |acts| - 1;
      VisibilityOverRuns(trace[..n + 1], acts[..n]);
      InvKeptExactly(trace[n], acts[n]);
    }
  }

  /** A hidden, disconnected device is visible again once the pending reopen has run. */
  lemma HiddenReopens(s: State)
    requires Inv(s) && !s.visible && !s.connected && !s.inCallback
    ensures s.timers == 1 ==>
              var r := Step(Step(Step(s, TimerFires), CallbackBegins), CallbackEnds);
              r.visible && !r.reopenRunning && Inv(r)
    ensures s.timers == 0 ==>
              CanAct(s, CallbackBegins) &&
              var r := Step(Step(s, CallbackBegins), CallbackEnds);
              r.visible && !r.reopenRunning && Inv(r)
  {
    if s.timers == 1 {
      var fired := Step(s, TimerFires);
      assert CanAct(fired, CallbackBegins) && CanAct(Step(fired, CallbackBegins), CallbackEnds);
    }
  }

  /** Hidden, not connected, and no reopen under way. */
  predicate Stranded(s: State) {
    !s.connected && !s.visible && !s.reopenRunning && Outstanding(s) == 0 && s.handle == INVALID_HANDLE
  }

  /** From boot: one connection that closes while no timer can be created hides the device. */
  lemma LostReopenStrands(boot: State, h: Handle)
    requires IsBoot(boot)
    ensures var open := Step(boot, ChannelOpened(0, h));
            && CanAct(open, ChannelClosed(CreateFailed)) && LosesReopen(open, ChannelClosed(CreateFailed))
            && Stranded(Step(open, ChannelClosed(CreateFailed)))
  {
  }

  /** It stays so until a channel opens or closes, which a hidden device does not invite. */
  lemma StrandedStays(s: State, a: Act)
    requires Stranded(s) && CanAct(s, a)
    requires (a.ChannelOpened? ==> a.status != 0) && !a.ChannelClosed?
    requires a.HciDisconnected? ==> a.dropped != INVALID_HANDLE
    ensures Stranded(Step(s, a))
  {
  }

  /** A stale reopen that runs during a new connection leaves the device hidden. */
  lemma ReopenDuringConnection(s: State)
    requires Inv(s) && s.connected && s.queued > 0
    ensures !s.inCallback
    ensures var r := Step(Step(s, CallbackBegins), CallbackEnds); !r.visible && Inv(r)
  {
  }

  /**
   The handle is only known while a channel is open, so the recovery branch for a link lost
   before BNEP opened never acts on a handle a controller can report.
   */
  lemma HciRecoveryNeverActs(s: State, h: Handle, timer: TimerResult)
    requires Inv(s) && CanAct(s, HciDisconnected(h, timer)) && h != INVALID_HANDLE
    ensures Step(s, HciDisconnected(h, timer)) == s
  {
  }

  // ---- What an opening and a closing do -----------------------------------------------------------

  /** A channel that opens without error, and is the only one, connects, hides the device and reports both. */
  lemma OpenExactly(s: State, status: Byte, link: Handle)
    requires CanAct(s, ChannelOpened(status, link))
    ensures var r := Step(s, ChannelOpened(status, link));
            if status != 0 || s.connected then r == s
            else r == s.(connected := true, handle := link, visible := false,
                         app := if s.wifiConnected then Bridge else s.app,
                         published := s.published + [BtUp, DownlinkUp])
  {
  }

  /** A channel that closes disconnects and always ends in DownlinkDown; a reopen is asked for unless one is under way. */
  lemma CloseExactly(s: State, timer: TimerResult)
    requires CanAct(s, ChannelClosed(timer))
    ensures var r := Step(s, ChannelClosed(timer));
            && r.published == s.published + (if s.connected then [BtDown, DownlinkDown] else [DownlinkDown])
            && !r.connected && r.handle == 0xFFFF && r.app == WaitBt
            && r.visible == s.visible && r.queued == s.queued && r.inCallback == s.inCallback
            && r.timers == (if !s.reopenRunning && timer == Started then s.timers + 1 else s.timers)
            && (r.reopenRunning <==> s.reopenRunning || timer == Started)
  {
  }

  /** Nothing else publishes or touches the connection. */
  lemma OthersPublishNothing(s: State, a: Act)
    requires CanAct(s, a) && !a.ChannelOpened? && !a.ChannelClosed?
    ensures Step(s, a).published == s.published && Step(s, a).connected == s.connected
  {
  }

  /** Openings report BtUp, DownlinkUp; closings BtDown, DownlinkDown, or DownlinkDown alone if nothing was open. */
  predicate DownlinkLog(log: seq<EventType>, up: bool) {
    var n := |log|;
    if up then
      n >= 2 && log[n - 2] == BtUp && log[n - 1] == DownlinkUp && DownlinkLog(log[..n - 2], false)
    else
      || n == 0
      || (log[n - 1] == DownlinkDown
          && (DownlinkLog(log[..n - 1], false)
              || (n >= 2 && log[n - 2] == BtDown && DownlinkLog(log[..n - 2], true))))
  }

  /** The last event that NAT is re-evaluated for. */
  function LastRoleEvent(log: seq<EventType>): Option<EventType> {
    if log == [] then None
    else if IsRoleEvent(log[|log| - 1]) then Some(log[|log| - 1])
    else LastRoleEvent(log[..|log| - 1])
  }

  lemma LogOpens(log: seq<EventType>)
    requires DownlinkLog(log, false)
    ensures DownlinkLog(log + [BtUp, DownlinkUp], true)
  {
    assert (log + [BtUp, DownlinkUp])[..|log|] == log;
  }

  lemma LogCloses(log: seq<EventType>)
    ensures DownlinkLog(log, true) ==> DownlinkLog(log + [BtDown, DownlinkDown], false)
    ensures DownlinkLog(log, false) ==> DownlinkLog(log + [DownlinkDown], false)
  {
    assert (log + [BtDown, DownlinkDown])[..|log|] == log;
    assert (log + [DownlinkDown])[..|log|] == log;
  }

  lemma LogKept(s: State, a: Act)
    requires CanAct(s, a) && DownlinkLog(s.published, s.connected)
    ensures DownlinkLog(Step(s, a).published, Step(s, a).connected)
  {
    LogOpensOrCloses(s.published, s.connected);
    match a
    case ChannelOpened(status, link) => OpenExactly(s, status, link);
    case ChannelClosed(timer) => CloseExactly(s, timer);
    case _ => OthersPublishNothing(s, a);
  }

  lemma LogOpensOrCloses(log: seq<EventType>, up: bool)
    requires DownlinkLog(log, up)
    ensures !up ==> DownlinkLog(log + [BtUp, DownlinkUp], true)
    ensures DownlinkLog(log + (if up then [BtDown, DownlinkDown] else [DownlinkDown]), false)
  {
    if !up { LogOpens(log); }
    LogCloses(log);
  }

  lemma LastOfLog(log: seq<EventType>, up: bool)
    requires DownlinkLog(log, up)
    ensures up <==> LastRoleEvent(log) == Some(DownlinkUp)
    ensures log != [] ==> LastRoleEvent(log) == Some(log[|log| - 1])
  {
  }

  /**
   Over every run from boot, with or without working timers, the published events follow the
   connection: the last role event is DownlinkUp exactly while connected, so the flag never
   changes without NAT being told.
   */
  lemma {:induction false} RoleEventsOverRuns(trace: seq<State>, acts: seq<Act>)
    requires IsRun(trace, acts) && IsBoot(trace[0])
    ensures var s := trace[|acts|];
            DownlinkLog(s.published, s.connected) && (s.connected <==> LastRoleEvent(s.published) == Some(DownlinkUp))
  {
    if |acts| > 0 {
      var n := |acts| - 1;
      RoleEventsOverRuns(trace[..n + 1], acts[..n]);
      LogKept(trace[n], acts[n]);
    }
    LastOfLog(trace[|acts|].published, trace[|acts|].connected);
  }

  // ---- The imperative handlers -------------------------------------------------------------------

  class Pan {
    var btHandle: Handle
    var visible: bool
    var reopenRunning: bool
    const flags: Flags

    /** Outstanding work held by the timer service and the BTstack run loop. */
    var timers: nat
    var queued: nat
    var inCallback: bool

    ghost predicate Valid()
      reads flags.bus.handlerCount
    {
      flags.bus.Valid()
    }

    ghost function View(): State
      reads this, flags, flags.bus
    {
      State(flags.btConnected, btHandle, visible, reopenRunning, timers, queued, inCallback,
            flags.wifiConnected, flags.app, flags.bus.published)
    }

    constructor (flags: Flags)
      requires flags.bus.Valid() && !flags.btConnected && flags.bus.published == []
      ensures Valid() && this.flags == flags && IsBoot(View())
    {
      this.flags := flags;
      btHandle := INVALID_HANDLE;
      visible, reopenRunning := true, false;
      timers, queued, inCallback := 0, 0, false;
    }

    method SetVisible(v: bool)
      modifies this`visible
      ensures visible == v
    {
      visible := v;
    }

    method ScheduleReopen(timer: TimerResult)
      modifies this`timers, this`reopenRunning
      ensures View() == Scheduled(old(View()), timer)
    {
      if timer != CreateFailed {
        if timer == Started {
          timers := timers + 1;
        } else {
          reopenRunning := false;
        }
      } else {
        reopenRunning := false;
      }
    }

    method OnChannelOpened(status: Byte, h: Handle)
      requires Valid() && !inCallback
      modifies this, flags, flags.bus`published
      ensures Valid() && View() == Step(old(View()), ChannelOpened(status, h))
    {
      if status != 0 { return; }
      if flags.btConnected { return; }
      Report(true);
      btHandle := h;
      SetVisible(false);
      if flags.wifiConnected {
        flags.SetApp(Bridge);
      }
    }

    /** The flag, its change, and the role event. */
    method Report(connected: bool)
      requires Valid()
      modifies flags`btConnected, flags.bus`published
      ensures Valid() && View() == SetConnected(old(View()), connected)
    {
      flags.SetBtConnected(connected);
      var _ := flags.bus.Publish(if connected then DownlinkUp else DownlinkDown);
    }

    method OnChannelClosed(timer: TimerResult)
      requires Valid() && !inCallback
      modifies this, flags, flags.bus`published
      ensures Valid() && View() == Step(old(View()), ChannelClosed(timer))
    {
      Report(false);
      btHandle := INVALID_HANDLE;
      var already := reopenRunning;
      if !already { reopenRunning := true; }
      flags.SetApp(WaitBt);
      if !already {
        ScheduleReopen(timer);
      }
    }

    method OnHciDisconnected(h: Handle, timer: TimerResult)
      requires Valid() && !inCallback
      modifies this
      ensures Valid() && View() == Step(old(View()), HciDisconnected(h, timer))
    {
      if !flags.btConnected && h == btHandle {
        btHandle := INVALID_HANDLE;
        var already := reopenRunning;
        if !already { reopenRunning := true; }
        if !already {
          ScheduleReopen(timer);
        }
      }
    }

    method OnReopenTimer()
      requires timers > 0
      modifies this`timers, this`queued
      ensures View() == Step(old(View()), TimerFires)
    {
      timers := timers - 1;
      queued := queued + 1;
    }

    method OnReopenCallback()
      requires queued > 0 && !inCallback
      modifies this`queued, this`visible, this`reopenRunning
      ensures View() == Step(Step(old(View()), CallbackBegins), CallbackEnds)
    {
      queued := queued - 1;
      if !flags.btConnected { SetVisible(true); }
      reopenRunning := false;
    }
  }
}
