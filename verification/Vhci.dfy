/**
 The VHCI receive path, `components/btstack-esp32/hci_transport_esp32_vhci.c`: the controller
 task writes length-tagged packets into a byte ring under a mutex, then wakes the main thread,
 which takes one packet at a time under the mutex and delivers it outside.
 */
module Vhci {
  import opened Prelude

  /** A packet as the controller hands it over: type byte first, 16-bit length. */
  type Packet = p: seq<Byte> | 1 <= |p| < 0x10000 witness [0]

  // ---- Framing ------------------------------------------------------------------------------

  /** `little_endian_store_16`. */
  function LenTag(len: nat): (t: seq<Byte>)
    requires len < 0x10000
    ensures |t| == 2
  {
    [len % 256, len / 256]
  }

  /** `little_endian_read_16`. */
  function ReadLen(ring: seq<Byte>): nat
    requires |ring| >= 2
  {
    var lo: int, hi: int := ring[0], ring[1];
    lo + hi * 256
  }

  function Frame(p: Packet): seq<Byte> {
    LenTag(|p|) + p
  }

  function Frames(ps: seq<Packet>): seq<Byte> {
    if ps == [] then [] else Frame(ps[0]) + Frames(ps[1..])
  }

  lemma {:induction false} FramesAppend(ps: seq<Packet>, p: Packet)
    ensures Frames(ps + [p]) == Frames(ps) + Frame(p)
  {
    if ps == [] {
      assert [p][1..] == [];
    } else {
      FramesAppend(ps[1..], p);
      assert (ps + [p])[1..] == ps[1..] + [p];
    }
  }

  /** A whole tagged packet stands at the front of the ring. */
  predicate HasFrame(ring: seq<Byte>) {
    |ring| >= 2 && ReadLen(ring) >= 1 && |ring| >= 2 + ReadLen(ring)
  }

  function FrontPacket(ring: seq<Byte>): Packet
    requires HasFrame(ring)
  {
    ring[2..2 + ReadLen(ring)]
  }

  function AfterFront(ring: seq<Byte>): seq<Byte>
    requires HasFrame(ring)
  {
    ring[2 + ReadLen(ring)..]
  }

  lemma FrontOfFrames(ps: seq<Packet>)
    requires ps != []
    ensures HasFrame(Frames(ps)) && FrontPacket(Frames(ps)) == ps[0] && AfterFront(Frames(ps)) == Frames(ps[1..])
  {
    var ring := Frames(ps);
    assert ring == LenTag(|ps[0]|) + ps[0] + Frames(ps[1..]);
    assert ReadLen(ring) == |ps[0]|;
  }

  /** The ring's bytes determine the packets in it. */
  lemma {:induction false} FramesInjective(a: seq<Packet>, b: seq<Packet>)
    requires Frames(a) == Frames(b)
    ensures a == b
  {
    if a != [] { FrontOfFrames(a); }
    if b != [] { FrontOfFrames(b); }
    if a != [] && b != [] {
      FramesInjective(a[1..], b[1..]);
      assert a == [a[0]] + a[1..] && b == [b[0]] + b[1..];
    }
  }

  // ---- The ring ---------------------------------------------------------------------------------

  /** A write puts in all of its bytes or none. */
  function Written(ring: seq<Byte>, capacity: nat, data: seq<Byte>): seq<Byte> {
    if |ring| + |data| <= capacity then ring + data else ring
  }

  /** The space check of `host_recv_pkt_cb`: it does not count the two tag bytes. */
  predicate PassesCheck(ring: seq<Byte>, capacity: nat, p: Packet) {
    capacity - |ring| >= |p|
  }

  // ---- Two threads ----------------------------------------------------------------------------------

  datatype Producer = Outside | MustWake
  datatype Consumer = Sleeping | Looping | Delivering(packet: Packet)

  datatype State = State(
    capacity: nat, ring: seq<Byte>,
    producer: Producer, consumer: Consumer, wakeQueued: bool,
    accepted: seq<Packet>, delivered: seq<Packet>)

  datatype Act = Receive(packet: Packet) | Wake | Start | Take | Deliver

  predicate CanAct(s: State, a: Act) {
    match a
    case Receive(_) => s.producer == Outside
    case Wake => s.producer == MustWake
    case Start => s.consumer == Sleeping && s.wakeQueued
    case Take => s.consumer == Looping && (s.ring == [] || HasFrame(s.ring))
    case Deliver => s.consumer.Delivering?
  }

  function Step(s: State, a: Act): State
    requires CanAct(s, a)
  {
    match a
    case Receive(p) =>
      if !PassesCheck(s.ring, s.capacity, p) then s
      else s.(ring := Written(Written(s.ring, s.capacity, LenTag(|p|)), s.capacity, p),
              producer := MustWake, accepted := s.accepted + [p])
    case Wake => s.(producer := Outside, wakeQueued := true)
    case Start => s.(wakeQueued := false, consumer := Looping)
    case Take =>
      if s.ring == [] then s.(consumer := Sleeping)
      else s.(ring := AfterFront(s.ring), consumer := Delivering(FrontPacket(s.ring)))
    case Deliver => s.(delivered := s.delivered + [s.consumer.packet], consumer := Looping)
  }

  /** Packets that have left the ring. */
  function Taken(s: State): nat {
    |s.delivered| + (if s.consumer.Delivering? then 1 else 0)
  }

  predicate Fifo(s: State) {
    && |s.ring| <= s.capacity
    && Taken(s) <= |s.accepted|
    && s.delivered == s.accepted[..|s.delivered|]
    && (s.consumer.Delivering? ==> s.consumer.packet == s.accepted[|s.delivered|])
    && s.ring == Frames(s.accepted[Taken(s)..])
  }

  /** A packet is never left in the ring with nobody due to look. */
  predicate NotStranded(s: State) {
    s.ring != [] && s.consumer == Sleeping ==> s.wakeQueued || s.producer == MustWake
  }

  /** Room for the packet but not for its tag as well. */
  predicate TagDoesNotFit(s: State, a: Act) {
    a.Receive? && |a.packet| <= s.capacity - |s.ring| < |a.packet| + 2
  }

  lemma ReceiveKeepsFifoExactly(s: State, p: Packet)
    requires Fifo(s) && CanAct(s, Receive(p))
    ensures Fifo(Step(s, Receive(p))) <==> !TagDoesNotFit(s, Receive(p))
  {
    if PassesCheck(s.ring, s.capacity, p) {
      var r := Step(s, Receive(p));
      var k := Taken(s);
      assert r.accepted[k..] == s.accepted[k..] + [p];
      FramesAppend(s.accepted[k..], p);
      assert r.accepted[..|s.delivered|] == s.accepted[..|s.delivered|];
      if !TagDoesNotFit(s, Receive(p)) {
        assert r.ring == s.ring + LenTag(|p|) + p == s.ring + Frame(p);
      } else {
        assert |r.ring| < |s.ring| + |Frame(p)|;
      }
    }
  }

  lemma TakeKeepsFifo(s: State)
    requires Fifo(s) && CanAct(s, Take)
    ensures Fifo(Step(s, Take))
  {
    var pending := s.accepted[Taken(s)..];
    if s.ring != [] {
      assert pending != [];
      FrontOfFrames(pending);
      assert pending[1..] == s.accepted[Taken(s) + 1..];
    }
  }

  lemma DeliverKeepsFifo(s: State)
    requires Fifo(s) && CanAct(s, Deliver)
    ensures Fifo(Step(s, Deliver))
  {
    var n := |s.delivered|;
    assert s.accepted[..n + 1] == s.accepted[..n] + [s.accepted[n]];
  }

  /** The framing survives every act except a packet accepted without room for its tag. */
  lemma FifoKeptExactly(s: State, a: Act)
    requires Fifo(s) && CanAct(s, a)
    ensures Fifo(Step(s, a)) <==> !TagDoesNotFit(s, a)
  {
    match a
    case Receive(p) => ReceiveKeepsFifoExactly(s, p);
    case Wake =>
    case Start =>
    case Take => TakeKeepsFifo(s);
    case Deliver => DeliverKeepsFifo(s);
  }

  lemma NotStrandedKept(s: State, a: Act)
    requires NotStranded(s) && CanAct(s, a)
    ensures NotStranded(Step(s, a))
  {
  }

  ghost predicate IsRun(trace: seq<State>, acts: seq<Act>) {
    && |trace| == |acts| + 1
    && forall k :: 0 <= k < |acts| ==> CanAct(trace[k], acts[k]) && trace[k + 1] == Step(trace[k], acts[k])
  }

  /** A packet is accepted, and a wake-up becomes due, exactly if its length fits the free bytes. */
  lemma AcceptedExactly(s: State, p: Packet)
    requires CanAct(s, Receive(p))
    ensures var r := Step(s, Receive(p));
            if |s.ring| + |p| <= s.capacity
            then r.accepted == s.accepted + [p] && r.producer == MustWake && r.consumer == s.consumer
                 && r.wakeQueued == s.wakeQueued && r.delivered == s.delivered
            else r == s
  {
  }

  /** The packet that an act brings in, if it fits. */
  function FittingIn(s: State, a: Act): seq<Packet> {
    if a.Receive? && |s.ring| + |a.packet| <= s.capacity then [a.packet] else []
  }

  lemma AcceptedByStep(s: State, a: Act)
    requires CanAct(s, a)
    ensures Step(s, a).accepted == s.accepted + FittingIn(s, a)
  {
    if a.Receive? { AcceptedExactly(s, a.packet); }
  }

  /** The packets of a run that fitted when they came in. */
  ghost function Fitting(trace: seq<State>, acts: seq<Act>): seq<Packet>
    requires IsRun(trace, acts)
  {
    if acts == [] then [] else
      var n := |acts| - 1;
      Fitting(trace[..n + 1], acts[..n]) + FittingIn(trace[n], acts[n])
  }

  /** Over every run, what was accepted is what was received and fitted, in order. */
  lemma {:induction false} AcceptedOverRuns(trace: seq<State>, acts: seq<Act>)
    requires IsRun(trace, acts)
    ensures trace[|acts|].accepted == trace[0].accepted + Fitting(trace, acts)
  {
    if acts != [] {
      var n := |acts| - 1;
      AcceptedOverRuns(trace[..n + 1], acts[..n]);
      AcceptedByStep(trace[n], acts[n]);
    }
  }

  lemma EmptyMeansDelivered(s: State)
    requires Fifo(s) && s.ring == []
    ensures Taken(s) == |s.accepted| && (!s.consumer.Delivering? ==> s.delivered == s.accepted)
  {
    if Taken(s) < |s.accepted| {
      FrontOfFrames(s.accepted[Taken(s)..]);
    }
  }

  predicate IsOpen(s: State) {
    s == State(s.capacity, [], Outside, Sleeping, false, [], [])
  }

  /**
   With the producer running anywhere between the consumer's critical sections, the ring is
   always whole tagged packets, and what was delivered is a prefix of what was accepted, each
   packet intact and once. Once both threads rest, everything accepted has been delivered.
   */
  lemma {:induction false} FifoOverRuns(trace: seq<State>, acts: seq<Act>)
    requires IsRun(trace, acts) && IsOpen(trace[0])
    requires forall k :: 0 <= k < |acts| ==> !TagDoesNotFit(trace[k], acts[k])
    ensures var s := trace[|acts|];
            && Fifo(s) && NotStranded(s) && s.delivered <= s.accepted
            && (s.consumer == Sleeping && s.producer == Outside && !s.wakeQueued ==> s.delivered == s.accepted)
  {
    if |acts| > 0 {
      var n := |acts| - 1;
      FifoOverRuns(trace[..n + 1], acts[..n]);
      FifoKeptExactly(trace[n], acts[n]);
      NotStrandedKept(trace[n], acts[n]);
    }
    if trace[|acts|].ring == [] { EmptyMeansDelivered(trace[|acts|]); }
  }

  /** The consumer never meets anything but a whole packet or an empty ring. */
  lemma ConsumerIsNeverStuck(s: State)
    requires Fifo(s) && s.consumer == Looping
    ensures CanAct(s, Take)
  {
    if s.ring != [] {
      FrontOfFrames(s.accepted[Taken(s)..]);
    }
  }

  /** One packet into an empty ring with one byte to spare breaks the framing: the tag stays alone. */
  lemma LoneTag(s: State, p: Packet)
    requires IsOpen(s) && s.capacity == |p| + 1
    ensures var r := Step(s, Receive(p));
            CanAct(s, Receive(p)) && r.ring == LenTag(|p|) && r.accepted == [p] && !Fifo(r)
            && !HasFrame(r.ring)
  {
    ReceiveKeepsFifoExactly(s, p);
    assert ReadLen(LenTag(|p|)) == |p|;
  }

  // ---- The imperative transport -------------------------------------------------------------------------

  ghost predicate RunsTo(trace: seq<State>, acts: seq<Act>, first: State, last: State) {
    IsRun(trace, acts) && trace[0] == first && trace[|acts|] == last
  }

  /** No packet of the run was accepted without room for its tag. */
  ghost predicate AlwaysRoom(trace: seq<State>, acts: seq<Act>)
    requires IsRun(trace, acts)
  {
    forall k :: 0 <= k < |acts| ==> !TagDoesNotFit(trace[k], acts[k])
  }

  /** One act more at the end of a run. */
  lemma Extend(trace: seq<State>, acts: seq<Act>, a: Act) returns (trace': seq<State>, acts': seq<Act>)
    requires IsRun(trace, acts) && CanAct(trace[|acts|], a)
    ensures RunsTo(trace', acts', trace[0], Step(trace[|acts|], a))
    ensures AlwaysRoom(trace', acts') <==> AlwaysRoom(trace, acts) && !TagDoesNotFit(trace[|acts|], a)
  {
    trace', acts' := trace + [Step(trace[|acts|], a)], acts + [a];
    assert trace'[|acts|] == trace[|acts|] && acts'[|acts|] == a;
    assert forall k :: 0 <= k < |acts| ==> trace'[k] == trace[k] && acts'[k] == acts[k];
  }

  class Transport {
    const capacity: nat
    var ring: seq<Byte>
    var wakeQueued: bool
    ghost var producer: Producer
    ghost var consumer: Consumer
    ghost var accepted: seq<Packet>
    ghost var delivered: seq<Packet>

    ghost function View(): State
      reads this
    {
      State(capacity, ring, producer, consumer, wakeQueued, accepted, delivered)
    }

    constructor (capacity: nat)
      ensures this.capacity == capacity && IsOpen(View())
    {
      this.capacity := capacity;
      ring, wakeQueued, producer, consumer, accepted, delivered := [], false, Outside, Sleeping, [], [];
    }

    method WriteRing(data: seq<Byte>)
      modifies this`ring
      ensures ring == Written(old(ring), capacity, data)
    {
      if capacity - |ring| < |data| { return; }
      ring := ring + data;
    }

    method ReadRing(n: nat) returns (data: seq<Byte>)
      requires n <= |ring|
      modifies this`ring
      ensures data == old(ring)[..n] && ring == old(ring)[n..]
    {
      data := ring[..n];
      ring := ring[n..];
    }

    /** `host_recv_pkt_cb`: the critical section, then the wake-up. */
    method HostReceive(p: Packet)
      requires producer == Outside
      modifies this`ring, this`wakeQueued, this`accepted
      ensures var r := Step(old(View()), Receive(p));
              View() == if r.producer == MustWake then Step(r, Wake) else r
    {
      if capacity - |ring| < |p| { return; }
      WriteRing(LenTag(|p|));
      WriteRing(p);
      accepted := accepted + [p];
      wakeQueued := true;
    }

    /** One arrival as part of a run; tells whether it had room for its tag, if it was accepted. */
    method Arrive(p: Packet, ghost start: seq<State>, ghost done: seq<Act>)
      returns (framed: bool, ghost trace: seq<State>, ghost acts: seq<Act>)
      requires producer == Outside && IsRun(start, done) && start[|done|] == View() && AlwaysRoom(start, done)
      modifies this`ring, this`wakeQueued, this`accepted
      ensures RunsTo(trace, acts, start[0], View()) && (framed <==> AlwaysRoom(trace, acts))
      ensures framed && Fifo(old(View())) ==> Fifo(View())
    {
      ghost var s := View();
      framed := !(|p| <= capacity - |ring| < |p| + 2);
      HostReceive(p);
      trace, acts := Extend(start, done, Receive(p));
      if trace[|acts|].producer == MustWake {
        trace, acts := Extend(trace, acts, Wake);
      }
      if framed && Fifo(s) { ReceiveKeepsFifoExactly(s, p); }
    }

    /** What arrives while the mutex is released, up to a packet that breaks the framing. */
    method ArriveAll(ps: seq<Packet>, ghost start: seq<State>, ghost done: seq<Act>)
      returns (framed: bool, ghost trace: seq<State>, ghost acts: seq<Act>)
      requires producer == Outside && IsRun(start, done) && start[|done|] == View() && AlwaysRoom(start, done)
      requires Fifo(View())
      modifies this`ring, this`wakeQueued, this`accepted
      ensures RunsTo(trace, acts, start[0], View()) && (framed <==> AlwaysRoom(trace, acts))
      ensures framed ==> Fifo(View())
      ensures ps == [] ==> ring == old(ring)
    {
      framed, trace, acts := true, start, done;
      var i := 0;
      while i < |ps|
        invariant 0 <= i <= |ps| && framed && Fifo(View())
        invariant RunsTo(trace, acts, start[0], View()) && AlwaysRoom(trace, acts)
        invariant i == 0 ==> ring == old(ring)
      {
        framed, trace, acts := Arrive(ps[i], trace, acts);
        if !framed { return; }
        i := i + 1;
      }
    }

    /** The loop body up to the release of the mutex: takes the packet at the front. */
    method TakeFront() returns (packet: Packet)
      requires Fifo(View()) && consumer == Looping && ring != []
      modifies this`ring, this`consumer
      ensures CanAct(old(View()), Take) && View() == Step(old(View()), Take)
      ensures consumer == Delivering(packet) && Fifo(View()) && |ring| < |old(ring)|
    {
      ghost var s := View();
      ConsumerIsNeverStuck(s);
      TakeKeepsFifo(s);
      var tag := ReadRing(2);
      var len := ReadLen(tag);
      assert len == ReadLen(s.ring);
      packet := ReadRing(len);
      assert packet == FrontPacket(s.ring) && ring == AfterFront(s.ring);
      consumer := Delivering(packet);
    }

    /** The upper stack gets the packet. */
    method HandOver(packet: Packet)
      requires consumer == Delivering(packet)
      modifies this`consumer, this`delivered
      ensures View() == Step(old(View()), Deliver) && (Fifo(old(View())) ==> Fifo(View()))
    {
      ghost var s := View();
      delivered := delivered + [packet];
      consumer := Looping;
      if Fifo(s) { DeliverKeepsFifo(s); }
    }

    /** One turn of the loop, with `arrivals` coming in while the packet is handed over. */
    method DeliverOne(arrivals: seq<Packet>, ghost start: seq<State>, ghost done: seq<Act>)
      returns (framed: bool, ghost trace: seq<State>, ghost acts: seq<Act>)
      requires producer == Outside && IsRun(start, done) && start[|done|] == View() && AlwaysRoom(start, done)
      requires Fifo(View()) && consumer == Looping && ring != []
      modifies this`ring, this`wakeQueued, this`consumer, this`accepted, this`delivered
      ensures RunsTo(trace, acts, start[0], View()) && (framed <==> AlwaysRoom(trace, acts))
      ensures consumer == Looping && (framed ==> Fifo(View()))
      ensures arrivals == [] ==> |ring| < |old(ring)|
    {
      var packet := TakeFront();
      trace, acts := Extend(start, done, Take);
      framed, trace, acts := ArriveAll(arrivals, trace, acts);
      HandOver(packet);
      trace, acts := Extend(trace, acts, Deliver);
    }

    /**
     `transport_deliver_packets`: what happens is a run of the protocol, for any packets arriving
     while the mutex is released; `arrivals[k]` come in during turn k. As long as each accepted
     packet had room for its tag, the loop ends with the ring empty and everything delivered.
     After one that had not, the run stops here.
     */
    method DeliverPackets(arrivals: seq<seq<Packet>>)
      returns (framed: bool, ghost trace: seq<State>, ghost acts: seq<Act>)
      requires producer == Outside && consumer == Sleeping && wakeQueued && Fifo(View())
      modifies this`ring, this`wakeQueued, this`consumer, this`accepted, this`delivered
      ensures RunsTo(trace, acts, old(View()), View()) && (framed <==> AlwaysRoom(trace, acts))
      ensures framed ==> Fifo(View()) && ring == [] && consumer == Sleeping && delivered == accepted
    {
      framed, trace, acts := true, [View()], [];
      wakeQueued, consumer := false, Looping;
      trace, acts := Extend(trace, acts, Start);
      var turn := 0;
      while |ring| > 0
        invariant framed && Fifo(View()) && consumer == Looping
        invariant RunsTo(trace, acts, old(View()), View()) && AlwaysRoom(trace, acts)
        decreases if turn < |arrivals| then |arrivals| - turn else 0, |ring|
      {
        var coming := if turn < |arrivals| then arrivals[turn] else [];
        framed, trace, acts := DeliverOne(coming, trace, acts);
        if !framed { return; }
        turn := turn + 1;
      }
      EmptyMeansDelivered(View());
      trace, acts := Extend(trace, acts, Take);
      consumer := Sleeping;
    }
  }
}
