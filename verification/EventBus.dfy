/** The publish/subscribe table of `main/event_bus.c` and the subscriptions made at boot. */
module EventBus {
  import opened Prelude

  const EVENT_TYPES: nat := 8
  const MAX_HANDLERS: nat := 4

  datatype EventType =
    | WifiUp | WifiDown | BtUp | BtDown
    | DownlinkUp | DownlinkDown | UplinkUp | UplinkDown

  /** The position of an event in the C enumeration. */
  function Code(e: EventType): (c: nat)
    ensures c < EVENT_TYPES
  {
    match e
    case WifiUp => 0 case WifiDown => 1 case BtUp => 2 case BtDown => 3
    case DownlinkUp => 4 case DownlinkDown => 5 case UplinkUp => 6 case UplinkDown => 7
  }

  /** The functions that are ever subscribed. */
  datatype Handler = OnBridgeEvent | OnBtEvent

  /** Handlers per event code, in the order they are called. */
  type Table = t: seq<seq<Handler>> | |t| == EVENT_TYPES witness seq(EVENT_TYPES, _ => [])

  function Subscribed(t: Table, code: int, h: Option<Handler>): Table {
    if 0 <= code < EVENT_TYPES && h.Some? && |t[code]| < MAX_HANDLERS
    then t[code := t[code] + [h.value]]
    else t
  }

  class Bus {
    const handlers: array2<Handler>
    const handlerCount: array<nat>
    ghost var published: seq<EventType>

    ghost predicate Valid()
      reads handlerCount
    {
      && handlers.Length0 == EVENT_TYPES && handlers.Length1 == MAX_HANDLERS
      && handlerCount.Length == EVENT_TYPES
      && forall c :: 0 <= c < EVENT_TYPES ==> handlerCount[c] <= MAX_HANDLERS
    }

    ghost function Row(code: nat): (r: seq<Handler>)
      requires Valid() && code < EVENT_TYPES
      reads handlers, handlerCount
      ensures |r| == handlerCount[code]
      ensures forall i :: 0 <= i < |r| ==> r[i] == handlers[code, i]
    {
      seq(handlerCount[code],
          i requires 0 <= i < handlerCount[code] && Valid() reads handlers, handlerCount => handlers[code, i])
    }

    ghost function View(): (t: Table)
      requires Valid()
      reads handlers, handlerCount
      ensures forall c :: 0 <= c < EVENT_TYPES ==> t[c] == Row(c)
    {
      seq(EVENT_TYPES, c requires 0 <= c < EVENT_TYPES && Valid() reads handlers, handlerCount => Row(c))
    }

    constructor ()
      ensures Valid() && fresh(handlers) && fresh(handlerCount)
      ensures published == [] && View() == seq(EVENT_TYPES, _ => [])
    {
      handlers := new Handler[EVENT_TYPES, MAX_HANDLERS];
      handlerCount := new nat[EVENT_TYPES](_ => 0);
      published := [];
    }

    method Subscribe(code: int, handler: Option<Handler>)
      requires Valid()
      modifies handlers, handlerCount
      ensures Valid() && View() == Subscribed(old(View()), code, handler)
    {
      if code < 0 || code >= EVENT_TYPES || handler.None? { return; }
      if handlerCount[code] >= MAX_HANDLERS { return; }
      ghost var before := View();
      handlers[code, handlerCount[code]] := handler.value;
      handlerCount[code] := handlerCount[code] + 1;
      assert Row(code) == before[code] + [handler.value];
      assert forall c :: 0 <= c < EVENT_TYPES && c != code ==> Row(c) == before[c];
    }

    /** Calls every handler of the event, in subscription order. */
    method Publish(e: EventType) returns (called: seq<Handler>)
      requires Valid()
      modifies `published
      ensures Valid() && View() == old(View())
      ensures called == View()[Code(e)] && published == old(published) + [e]
    {
      called := [];
      published := published + [e];
      var i := 0;
      while i < handlerCount[Code(e)]
        invariant 0 <= i <= handlerCount[Code(e)]
        invariant called == Row(Code(e))[..i]
      {
        called := called + [handlers[Code(e), i]];
        i := i + 1;
      }
    }
  }

  // ---- The table after boot -----------------------------------------------------------

  /** `nat_bridge_subscribe`, then the subscription made by `wifi_manager_init`. */
  function BootTable(): Table {
    var t0: Table := seq(EVENT_TYPES, _ => []);
    var t1 := Subscribed(t0, Code(DownlinkUp), Some(OnBridgeEvent));
    var t2 := Subscribed(t1, Code(DownlinkDown), Some(OnBridgeEvent));
    var t3 := Subscribed(t2, Code(UplinkUp), Some(OnBridgeEvent));
    var t4 := Subscribed(t3, Code(UplinkDown), Some(OnBridgeEvent));
    Subscribed(t4, Code(BtUp), Some(OnBtEvent))
  }

  predicate IsRoleEvent(e: EventType) {
    e.DownlinkUp? || e.DownlinkDown? || e.UplinkUp? || e.UplinkDown?
  }

  /** Every role event, and no other, reaches NAT re-evaluation, exactly once. */
  lemma RoleEventsReachTheBridge(e: EventType)
    ensures IsRoleEvent(e) <==> OnBridgeEvent in BootTable()[Code(e)]
    ensures !IsRoleEvent(e) ==> BootTable()[Code(e)] == if e.BtUp? then [OnBtEvent] else []
    ensures IsRoleEvent(e) ==> BootTable()[Code(e)] == [OnBridgeEvent]
  {
    var t0: Table := seq(EVENT_TYPES, _ => []);
    assert BootTable()[Code(e)] == if IsRoleEvent(e) then [OnBridgeEvent] else if e.BtUp? then [OnBtEvent] else [];
  }

  // ---- Whole sequences of subscriptions -----------------------------------------------------------

  datatype Subscription = Subscription(code: int, handler: Option<Handler>)

  function SubscribedAll(t: Table, subs: seq<Subscription>): Table {
    if subs == [] then t else
      var last := subs[|subs| - 1];
      Subscribed(SubscribedAll(t, subs[..|subs| - 1]), last.code, last.handler)
  }

  /** The handlers that were subscribed to one event, in order. */
  function HandlersFor(subs: seq<Subscription>, e: EventType): seq<Handler> {
    if subs == [] then [] else
      var last := subs[|subs| - 1];
      HandlersFor(subs[..|subs| - 1], e)
      + (if last.code == Code(e) && last.handler.Some? then [last.handler.value] else [])
  }

  /** After any subscriptions an event calls the first four handlers subscribed to it, in order. */
  lemma {:induction false} FirstFourAreCalled(subs: seq<Subscription>, e: EventType)
    ensures SubscribedAll(seq(EVENT_TYPES, _ => []), subs)[Code(e)] == Truncated(HandlersFor(subs, e), 4)
  {
    if subs != [] {
      FirstFourAreCalled(subs[..|subs| - 1], e);
    }
  }
}
