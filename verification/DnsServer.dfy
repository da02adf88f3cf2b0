/**
 The reply cache and the request loop of `main/dns_server.c`: sixteen slots overwritten in
 turn, a 16-bit hash to skip most comparisons, and expiry noticed only when a lookup meets the
 entry. Times are milliseconds; entries keep them modulo 2^32, as the code does.
 */
module DnsServer {
  import opened Prelude
  import opened DnsCaptive

  const SLOTS: nat := 16
  const MAX_PACKET: nat := 512
  const TTL_MS: nat := 60000

  /** A slot. The buffers are modelled by the bytes that `qlen` and `rlen` say are in use. */
  datatype Entry = Entry(valid: bool, hash: nat, savedMs: nat, query: seq<Byte>, reply: seq<Byte>)
  datatype Cache = Cache(slots: seq<Entry>, next: nat)

  const EMPTY_ENTRY := Entry(false, 0, 0, [], [])

  // ---- The hash ----------------------------------------------------------------------------

  /** The 32-bit accumulator after the bytes from 12 up to `n`. */
  function HashUpTo(q: seq<Byte>, n: nat): (h: nat)
    requires n <= |q|
    ensures h < U32
  {
    if n <= HEADER then 0 else (HashUpTo(q, n - 1) * 31 + q[n - 1]) % U32
  }

  /** `(uint16_t)(h ^ (h >> 16))`. */
  function Fold16(h: nat): nat
    requires h < U32
  {
    ((h % 0x10000) as bv16 ^ (h / 0x10000) as bv16) as int
  }

  function QueryHash(q: seq<Byte>): nat {
    Fold16(HashUpTo(q, Min(|q|, 40)))
  }

  method DnsQueryHash(q: seq<Byte>) returns (hash: nat)
    ensures hash == QueryHash(q)
  {
    var h := 0;
    var i := HEADER;
    while i < |q| && i < 40
      invariant HEADER <= i && (i <= Min(|q|, 40) || |q| < HEADER)
      invariant 0 <= h < U32
      invariant i <= |q| ==> h == HashUpTo(q, i)
      invariant |q| < HEADER ==> h == 0
    {
      h := (h * 31 + q[i]) % U32;
      i := i + 1;
    }
    hash := Fold16(h);
  }

  // ---- Lookup and store as functions -------------------------------------------------------------

  /** What a cached answer is filed under: the query from byte 12 on, which fixes its length. */
  function Key(q: seq<Byte>): seq<Byte>
    requires |q| >= HEADER
  {
    q[HEADER..]
  }

  predicate MayMatch(e: Entry, q: seq<Byte>) {
    e.valid && e.hash == QueryHash(q) && |e.query| == |q|
  }

  predicate Expired(e: Entry, now: nat) {
    (now - e.savedMs) % U32 > TTL_MS
  }

  function Invalidated(slots: seq<Entry>, i: nat): (r: seq<Entry>)
    requires i < |slots|
    ensures |r| == |slots|
  {
    slots[i := slots[i].(valid := false)]
  }

  datatype Found = Found(slots: seq<Entry>, hit: Option<nat>)

  function Search(slots: seq<Entry>, q: seq<Byte>, now: nat, i: nat): (f: Found)
    requires |q| >= HEADER && i <= |slots|
    ensures |f.slots| == |slots| && (f.hit.Some? ==> i <= f.hit.value < |slots|)
    decreases |slots| - i
  {
    if i == |slots| then Found(slots, None)
    else if !MayMatch(slots[i], q) then Search(slots, q, now, i + 1)
    else if Expired(slots[i], now) then Search(Invalidated(slots, i), q, now, i + 1)
    else if slots[i].query[HEADER..] != Key(q) then Search(slots, q, now, i + 1)
    else Found(slots, Some(i))
  }

  /** A reply under the transaction ID of `q`. */
  function Relabeled(q: seq<Byte>, reply: seq<Byte>): seq<Byte>
    requires |q| >= 2
  {
    q[..2] + (if |reply| >= 2 then reply[2..] else [])
  }

  datatype Answer = Answer(cache: Cache, reply: Option<seq<Byte>>)

  function Lookup(c: Cache, q: seq<Byte>, now: nat): Answer {
    if |q| < HEADER then Answer(c, None) else
      var f := Search(c.slots, q, now, 0);
      Answer(Cache(f.slots, c.next),
             if f.hit.None? then None else Some(Relabeled(q, f.slots[f.hit.value].reply)))
  }

  predicate Storable(q: seq<Byte>, r: seq<Byte>) {
    HEADER <= |q| <= MAX_PACKET && HEADER <= |r| <= MAX_PACKET
  }

  function WithoutId(p: seq<Byte>): (r: seq<Byte>)
    requires |p| >= 2
    ensures |r| == |p| && r[2..] == p[2..]
  {
    [0, 0] + p[2..]
  }

  function StoredEntry(q: seq<Byte>, r: seq<Byte>, now: nat): Entry
    requires Storable(q, r)
  {
    Entry(true, QueryHash(q), now, WithoutId(q), WithoutId(r))
  }

  function Store(c: Cache, q: seq<Byte>, r: seq<Byte>, now: nat): Cache
    requires c.next < |c.slots|
  {
    if !Storable(q, r) then c
    else Cache(c.slots[c.next := StoredEntry(q, r, now)], (c.next + 1) % SLOTS)
  }

  // ---- The cache as a finite map --------------------------------------------------------------------

  predicate GoodSlots(slots: seq<Entry>) {
    forall i :: 0 <= i < |slots| && slots[i].valid ==>
      && HEADER <= |slots[i].query| && HEADER <= |slots[i].reply|
      && slots[i].hash == QueryHash(slots[i].query)
  }

  predicate HasKey(e: Entry, k: seq<Byte>) {
    e.valid && |e.query| >= HEADER && e.query[HEADER..] == k
  }

  predicate DistinctKeys(slots: seq<Entry>) {
    forall i, j :: 0 <= i < j < |slots| && slots[i].valid && slots[j].valid && |slots[i].query| >= HEADER ==>
      !HasKey(slots[j], slots[i].query[HEADER..])
  }

  lemma {:induction false} HashUpToAgrees(q: seq<Byte>, p: seq<Byte>, n: nat)
    requires |q| == |p| >= n && |q| >= HEADER && q[HEADER..] == p[HEADER..]
    ensures HashUpTo(q, n) == HashUpTo(p, n)
  {
    if n > HEADER {
      HashUpToAgrees(q, p, n - 1);
      assert q[n - 1] == q[HEADER..][n - 1 - HEADER] == p[HEADER..][n - 1 - HEADER] == p[n - 1];
    }
  }

  /** The prefilter never rejects an entry that holds the query's key. */
  lemma HashNeverMisses(e: Entry, q: seq<Byte>)
    requires |q| >= HEADER && GoodSlots([e]) && HasKey(e, Key(q))
    ensures MayMatch(e, q)
  {
    assert [e][0] == e;
    assert |e.query| == |q| by { assert |e.query[HEADER..]| == |Key(q)|; }
    HashUpToAgrees(e.query, q, Min(|q|, 40));
  }

  /** `after` is `before` with some entries that had expired by `now` switched off. */
  predicate OnlyDropsExpired(before: seq<Entry>, after: seq<Entry>, now: nat) {
    && |before| == |after|
    && forall k :: 0 <= k < |before| ==>
         after[k] == before[k]
         || (before[k].valid && Expired(before[k], now) && after[k] == before[k].(valid := false))
  }

  /** What a search from slot `i` on does, without saying how. */
  predicate SearchOutcome(slots: seq<Entry>, f: Found, q: seq<Byte>, now: nat, i: nat)
    requires |q| >= HEADER
  {
    && OnlyDropsExpired(slots, f.slots, now)
    && (f.hit.Some? ==>
          var k := f.hit.value;
          k < |slots| && f.slots[k] == slots[k] && HasKey(slots[k], Key(q)) && !Expired(slots[k], now))
    && (f.hit.None? ==> forall k :: i <= k < |slots| ==> !HasKey(f.slots[k], Key(q)))
  }

  lemma OutcomeAfterDrop(slots: seq<Entry>, f: Found, q: seq<Byte>, now: nat, i: nat)
    requires |q| >= HEADER && i < |slots| && slots[i].valid && Expired(slots[i], now)
    requires SearchOutcome(Invalidated(slots, i), f, q, now, i + 1)
    ensures SearchOutcome(slots, f, q, now, i)
  {
    assert forall k :: 0 <= k < |slots| && k != i ==> Invalidated(slots, i)[k] == slots[k];
    assert f.slots[i] == Invalidated(slots, i)[i];
  }

  lemma OutcomeAfterSkip(slots: seq<Entry>, f: Found, q: seq<Byte>, now: nat, i: nat)
    requires |q| >= HEADER && i < |slots| && !HasKey(slots[i], Key(q))
    requires SearchOutcome(slots, f, q, now, i + 1)
    ensures SearchOutcome(slots, f, q, now, i)
  {
  }

  lemma {:induction false} SearchIsExact(slots: seq<Entry>, q: seq<Byte>, now: nat, i: nat)
    requires |q| >= HEADER && i <= |slots| && GoodSlots(slots)
    ensures SearchOutcome(slots, Search(slots, q, now, i), q, now, i)
    decreases |slots| - i
  {
    if i < |slots| {
      var e := slots[i];
      if HasKey(e, Key(q)) {
        assert GoodSlots([e]);
        HashNeverMisses(e, q);
      }
      if MayMatch(e, q) && Expired(e, now) {
        var dropped := Invalidated(slots, i);
        SearchIsExact(dropped, q, now, i + 1);
        OutcomeAfterDrop(slots, Search(dropped, q, now, i + 1), q, now, i);
      } else if !HasKey(e, Key(q)) {
        SearchIsExact(slots, q, now, i + 1);
        OutcomeAfterSkip(slots, Search(slots, q, now, i + 1), q, now, i);
      }
    }
  }

  datatype Held = Held(reply: seq<Byte>, savedMs: nat)

  /** The position of the first valid slot under key `k`. */
  function SlotOf(slots: seq<Entry>, k: seq<Byte>): (i: nat)
    ensures i <= |slots|
    ensures i < |slots| ==> HasKey(slots[i], k)
    ensures forall j :: 0 <= j < i ==> !HasKey(slots[j], k)
  {
    if slots == [] then 0 else if HasKey(slots[0], k) then 0 else 1 + SlotOf(slots[1..], k)
  }

  function Get(slots: seq<Entry>, k: seq<Byte>): Option<Held> {
    var i := SlotOf(slots, k);
    if i < |slots| then Some(Held(slots[i].reply, slots[i].savedMs)) else None
  }

  lemma GetIsUnique(slots: seq<Entry>, k: seq<Byte>, i: nat)
    requires DistinctKeys(slots) && i < |slots| && HasKey(slots[i], k)
    ensures SlotOf(slots, k) == i && Get(slots, k) == Some(Held(slots[i].reply, slots[i].savedMs))
  {
    var j := SlotOf(slots, k);
    assert j <= i;
  }

  predicate Fresh(h: Held, now: nat) {
    (now - h.savedMs) % U32 <= 60000
  }

  lemma DroppingKeepsDistinct(before: seq<Entry>, after: seq<Entry>, now: nat)
    requires OnlyDropsExpired(before, after, now) && DistinctKeys(before)
    ensures DistinctKeys(after)
  {
    forall i, j | 0 <= i < j < |after| && after[i].valid && after[j].valid && |after[i].query| >= HEADER
      ensures !HasKey(after[j], after[i].query[HEADER..])
    {
      assert after[i] == before[i] && after[j] == before[j];
    }
  }

  lemma OutcomeReadsMap(slots: seq<Entry>, f: Found, q: seq<Byte>, now: nat)
    requires |q| >= HEADER && DistinctKeys(slots) && SearchOutcome(slots, f, q, now, 0)
    ensures Get(slots, Key(q)).Some? && Fresh(Get(slots, Key(q)).value, now) <==> f.hit.Some?
    ensures f.hit.Some? ==> Get(slots, Key(q)).value.reply == f.slots[f.hit.value].reply
    ensures f.hit.None? ==> Get(f.slots, Key(q)) == None
  {
    if f.hit.Some? {
      GetIsUnique(slots, Key(q), f.hit.value);
    } else {
      var i := SlotOf(slots, Key(q));
      if i < |slots| { assert !HasKey(f.slots[i], Key(q)); }
    }
  }

  /** Dropping expired entries only forgets expired answers. */
  lemma DroppingForgets(slots: seq<Entry>, after: seq<Entry>, now: nat, other: seq<Byte>)
    requires DistinctKeys(slots) && OnlyDropsExpired(slots, after, now)
    ensures Get(after, other) != Get(slots, other) ==>
              Get(after, other) == None && Get(slots, other).Some? && !Fresh(Get(slots, other).value, now)
  {
    var o, o' := SlotOf(slots, other), SlotOf(after, other);
    if o' < |after| {
      assert HasKey(slots[o'], other);
      GetIsUnique(slots, other, o');
    } else if o < |slots| {
      assert !HasKey(after[o], other);
    }
  }

  lemma DroppingKeepsGood(before: seq<Entry>, after: seq<Entry>, now: nat)
    requires OnlyDropsExpired(before, after, now) && GoodSlots(before)
    ensures GoodSlots(after)
  {
  }

  /**
   A lookup reads the map: it hits exactly when the key is bound to a fresh answer, and returns
   that answer under the new ID. Of other keys it may forget only expired ones, and after a miss
   the key itself is unbound.
   */
  lemma LookupReadsMap(c: Cache, q: seq<Byte>, now: nat, other: seq<Byte>)
    requires |q| >= HEADER && GoodSlots(c.slots) && DistinctKeys(c.slots)
    ensures var a := Lookup(c, q, now);
            && a.reply == (match Get(c.slots, Key(q))
                           case None => None
                           case Some(h) => if Fresh(h, now) then Some(Relabeled(q, h.reply)) else None)
            && (a.reply.None? ==> Get(a.cache.slots, Key(q)) == None)
            && (Get(a.cache.slots, other) != Get(c.slots, other) ==>
                  && Get(a.cache.slots, other) == None && Get(c.slots, other).Some?
                  && !Fresh(Get(c.slots, other).value, now))
            && GoodSlots(a.cache.slots) && DistinctKeys(a.cache.slots)
  {
    var f := Search(c.slots, q, now, 0);
    SearchIsExact(c.slots, q, now, 0);
    DroppingKeepsDistinct(c.slots, f.slots, now);
    DroppingKeepsGood(c.slots, f.slots, now);
    OutcomeReadsMap(c.slots, f, q, now);
    DroppingForgets(c.slots, f.slots, now, other);
  }

  /** What the other keys read once slot `i` has been overwritten. */
  lemma OverwriteReads(slots: seq<Entry>, after: seq<Entry>, i: nat, e: Entry, other: seq<Byte>)
    requires i < |slots| && after == slots[i := e] && DistinctKeys(slots) && DistinctKeys(after)
    requires !HasKey(e, other)
    ensures Get(after, other) == if HasKey(slots[i], other) then None else Get(slots, other)
  {
    var o, o' := SlotOf(slots, other), SlotOf(after, other);
    if o' < |after| { GetIsUnique(slots, other, o'); }
    if o < |slots| && o != i { GetIsUnique(after, other, o); }
    if HasKey(slots[i], other) { GetIsUnique(slots, other, i); }
  }

  /** The key of the entry that a store writes. */
  lemma StoredKey(q: seq<Byte>, r: seq<Byte>, now: nat)
    requires Storable(q, r)
    ensures var e := StoredEntry(q, r, now);
            |e.query| == |q| && e.query[HEADER..] == Key(q) && HasKey(e, Key(q)) && GoodSlots([e])
  {
    var e := StoredEntry(q, r, now);
    assert e.query[HEADER..] == e.query[2..][HEADER - 2..];
    assert q[HEADER..] == q[2..][HEADER - 2..];
    HashUpToAgrees(e.query, q, Min(|q|, 40));
  }

  /** After a miss a store binds the key, evicting at most the one answer in the slot it takes. */
  lemma StoreUpdatesMap(c: Cache, q: seq<Byte>, r: seq<Byte>, now: nat, other: seq<Byte>)
    requires c.next < |c.slots| && Storable(q, r) && GoodSlots(c.slots) && DistinctKeys(c.slots)
    requires Get(c.slots, Key(q)) == None
    ensures var c' := Store(c, q, r, now);
            && GoodSlots(c'.slots) && DistinctKeys(c'.slots)
            && Get(c'.slots, Key(q)) == Some(Held(WithoutId(r), now))
            && (other != Key(q) ==>
                  Get(c'.slots, other) == if HasKey(c.slots[c.next], other) then None else Get(c.slots, other))
  {
    var e := StoredEntry(q, r, now);
    var slots' := Store(c, q, r, now).slots;
    StoredKey(q, r, now);
    assert [e][0] == e;
    StoreKeepsDistinctExactly(c, q, r, now);
    GetIsUnique(slots', Key(q), c.next);
    if other != Key(q) { OverwriteReads(c.slots, slots', c.next, e, other); }
  }

  /** Why the loop stores only after a miss: a store keeps keys distinct exactly then. */
  lemma StoreKeepsDistinctExactly(c: Cache, q: seq<Byte>, r: seq<Byte>, now: nat)
    requires c.next < |c.slots| && Storable(q, r) && DistinctKeys(c.slots)
    ensures DistinctKeys(Store(c, q, r, now).slots)
            <==> forall i :: 0 <= i < |c.slots| && i != c.next ==> !HasKey(c.slots[i], Key(q))
  {
    var e := StoredEntry(q, r, now);
    var slots' := Store(c, q, r, now).slots;
    StoredKey(q, r, now);
    assert slots'[c.next] == e;
    if exists i :: 0 <= i < |c.slots| && i != c.next && HasKey(c.slots[i], Key(q)) {
      var i :| 0 <= i < |c.slots| && i != c.next && HasKey(c.slots[i], Key(q));
      assert slots'[i] == c.slots[i];
      assert !DistinctKeys(slots');
    }
  }

  // ---- The request loop -----------------------------------------------------------------------------------

  /**
   One datagram and its circumstances: the true times at which the cache is read and written,
   whether proxy mode answers everything itself, and what the upstream server returns, if reached.
   */
  datatype Request = Request(query: seq<Byte>, lookupAt: nat, captive: bool, upstream: Option<seq<Byte>>, storeAt: nat)

  predicate GoodRequest(r: Request) {
    && |r.query| <= MAX_PACKET && r.lookupAt <= r.storeAt
    && (r.upstream.Some? ==> HEADER <= |r.upstream.value| <= MAX_PACKET)
  }

  datatype Served = Served(cache: Cache, reply: seq<Byte>)

  function Serve(c: Cache, r: Request): Served
    requires c.next < |c.slots|
  {
    if |r.query| < HEADER then Served(c, [])
    else if r.captive then Served(c, CaptiveReply(r.query, MAX_PACKET))
    else
      var a := Lookup(c, r.query, r.lookupAt % U32);
      if a.reply.Some? then Served(a.cache, a.reply.value)
      else if r.upstream.Some? then
        Served(Store(a.cache, r.query, r.upstream.value, r.storeAt % U32), r.upstream.value)
      else Served(a.cache, CaptiveReply(r.query, MAX_PACKET))
  }

  class Server {
    const slots: array<Entry>
    var next: nat

    ghost predicate Valid()
      reads this
    {
      slots.Length == SLOTS && next < SLOTS
    }

    ghost function View(): (c: Cache)
      requires Valid()
      reads this, slots
      ensures c.next < |c.slots| == SLOTS
    {
      Cache(slots[..], next)
    }

    constructor ()
      ensures Valid() && fresh(slots) && View() == Cache(seq(SLOTS, _ => EMPTY_ENTRY), 0)
    {
      slots := new Entry[SLOTS](_ => EMPTY_ENTRY);
      next := 0;
    }

    method CacheLookup(query: seq<Byte>, now: nat) returns (reply: Option<seq<Byte>>)
      requires Valid()
      modifies slots
      ensures Valid() && Answer(View(), reply) == Lookup(old(View()), query, now)
    {
      if |query| < HEADER { return None; }
      var hash := DnsQueryHash(query);
      var i := 0;
      while i < SLOTS
        invariant 0 <= i <= SLOTS
        invariant Search(old(slots[..]), query, now, 0) == Search(slots[..], query, now, i)
      {
        if !slots[i].valid || slots[i].hash != hash || |slots[i].query| != |query| {
        } else if (now - slots[i].savedMs) % U32 > TTL_MS {
          ghost var before := slots[..];
          slots[i] := slots[i].(valid := false);
          assert slots[..] == Invalidated(before, i);
        } else if slots[i].query[HEADER..] != query[HEADER..] {
        } else {
          var stored := slots[i].reply;
          return Some(query[..2] + (if |stored| >= 2 then stored[2..] else []));
        }
        i := i + 1;
      }
      return None;
    }

    method CacheStore(query: seq<Byte>, reply: seq<Byte>, now: nat)
      requires Valid()
      modifies this, slots
      ensures Valid() && View() == Store(old(View()), query, reply, now)
    {
      if |query| < HEADER || |query| > MAX_PACKET || |reply| < HEADER || |reply| > MAX_PACKET { return; }
      var slot := next;
      next := (next + 1) % SLOTS;
      var hash := DnsQueryHash(query);
      slots[slot] := Entry(true, hash, now, [0, 0] + query[2..], [0, 0] + reply[2..]);
    }

    /** The body of the request loop. */
    method ServeOne(r: Request) returns (reply: seq<Byte>)
      requires Valid() && GoodRequest(r)
      modifies this, slots
      ensures Valid() && Served(View(), reply) == Serve(old(View()), r)
    {
      if |r.query| < HEADER { return []; }
      var buffer := new Byte[MAX_PACKET];
      if !r.captive {
        var hit := CacheLookup(r.query, r.lookupAt % U32);
        if hit.Some? { return hit.value; }
        if r.upstream.Some? {
          CacheStore(r.query, r.upstream.value, r.storeAt % U32);
          return r.upstream.value;
        }
      }
      var rlen := MakeCaptiveReply(r.query, buffer, MAX_PACKET);
      reply := buffer[..rlen];
    }
  }

  // ---- Whole runs ----------------------------------------------------------------------------------------------

  /** An upstream answer that went into the cache, and when. */
  datatype Stored = Stored(query: seq<Byte>, reply: seq<Byte>, at: nat)

  /** The cache with everything stored since boot and the time of the last request. */
  datatype State = State(cache: Cache, history: seq<Stored>, clock: nat)

  predicate CanServe(s: State, r: Request) {
    && s.cache.next < |s.cache.slots|
    && GoodRequest(r) && s.clock <= r.lookupAt
  }

  /** The request misses the cache and is answered upstream. */
  predicate Stores(s: State, r: Request)
    requires CanServe(s, r)
  {
    |r.query| >= HEADER && !r.captive && Lookup(s.cache, r.query, r.lookupAt % U32).reply.None? && r.upstream.Some?
  }

  function Step(s: State, r: Request): State
    requires CanServe(s, r)
  {
    State(Serve(s.cache, r).cache,
          if Stores(s, r) then s.history + [Stored(r.query, r.upstream.value, r.storeAt)] else s.history,
          r.storeAt)
  }

  predicate IsCopy(e: Entry, st: Stored) {
    && Storable(st.query, st.reply)
    && e.(valid := true) == StoredEntry(st.query, st.reply, st.at % U32)
  }

  /** The oldest of the last sixteen stores. */
  function Oldest(n: nat): nat {
    if n < 16 then 0 else n - 16
  }

  /** The last sixteen stores in their places, switched off only after their true age has passed the limit. */
  ghost predicate HoldsStores(slots: seq<Entry>, history: seq<Stored>, clock: nat)
    requires |slots| == SLOTS
  {
    forall j :: Oldest(|history|) <= j < |history| ==>
      && IsCopy(slots[j % SLOTS], history[j])
      && (!slots[j % SLOTS].valid ==> clock - history[j].at > 60000)
  }

  predicate RestIsEmpty(slots: seq<Entry>, n: nat) {
    forall i :: n <= i < |slots| ==> !slots[i].valid
  }

  predicate IsPast(history: seq<Stored>, clock: nat) {
    forall j :: 0 <= j < |history| ==> history[j].at <= clock
  }

  ghost predicate RingOf(slots: seq<Entry>, history: seq<Stored>, clock: nat) {
    && |slots| == 16 && HoldsStores(slots, history, clock)
    && RestIsEmpty(slots, |history|) && IsPast(history, clock)
  }

  predicate SameQuestion(a: seq<Byte>, b: seq<Byte>) {
    |a| >= HEADER && |b| >= HEADER && Key(a) == Key(b)
  }

  /** Once a question has been stored again, its older answers are switched off for good. */
  ghost predicate LatestOnly(slots: seq<Entry>, history: seq<Stored>)
    requires |slots| == SLOTS
  {
    forall j, m :: Oldest(|history|) <= j < m < |history| && SameQuestion(history[j].query, history[m].query) ==>
      !slots[j % SLOTS].valid
  }

  ghost predicate Inv(s: State) {
    && RingOf(s.cache.slots, s.history, s.clock) && s.cache.next == |s.history| % SLOTS
    && LatestOnly(s.cache.slots, s.history) && GoodSlots(s.cache.slots) && DistinctKeys(s.cache.slots)
  }

  lemma ResiduesDiffer(j: nat, n: nat)
    requires j < n < j + SLOTS
    ensures j % SLOTS != n % SLOTS
  {
  }

  /** Each slot belongs to the latest store with its residue. */
  lemma SlotOwner(n: nat, i: nat) returns (j: nat)
    requires i < SLOTS && i < n
    ensures Oldest(n) <= j < n && j % SLOTS == i
  {
    j := if n < SLOTS then i else n - 1 - (n - 1 - i) % SLOTS;
  }

  lemma DroppingKeepsRing(slots: seq<Entry>, after: seq<Entry>, history: seq<Stored>, clock: nat, now: nat)
    requires RingOf(slots, history, clock) && clock <= now && OnlyDropsExpired(slots, after, now % U32)
    ensures RingOf(after, history, now)
  {
    forall j | Oldest(|history|) <= j < |history|
      ensures IsCopy(after[j % SLOTS], history[j])
      ensures !after[j % SLOTS].valid ==> now - history[j].at > TTL_MS
    {
      var e := slots[j % SLOTS];
      assert IsCopy(e, history[j]);
      assert e.savedMs == history[j].at % U32;
      TrueAge(history[j].at, now);
    }
  }

  /** The age the 32-bit clocks show is the true age modulo 2^32. */
  lemma TrueAge(at: nat, now: nat)
    requires at <= now
    ensures (now % U32 - at % U32) % U32 == (now - at) % U32
    ensures (now - at) % U32 <= now - at
    ensures now - at < U32 ==> (now - at) % U32 == now - at
  {
  }

  /** The slot of a store, after one more store, if it is still among the last sixteen. */
  lemma StoredCopy(c: Cache, history: seq<Stored>, clock: nat, q: seq<Byte>, r: seq<Byte>, at: nat, j: nat)
    requires RingOf(c.slots, history, clock) && c.next == |history| % SLOTS
    requires Storable(q, r) && clock <= at && Oldest(|history| + 1) <= j <= |history|
    ensures var slot, st := Store(c, q, r, at % U32).slots[j % SLOTS], (history + [Stored(q, r, at)])[j];
            IsCopy(slot, st) && (!slot.valid ==> at - st.at > TTL_MS)
  {
    if j < |history| {
      ResiduesDiffer(j, |history|);
    }
  }

  lemma StoringHolds(c: Cache, history: seq<Stored>, clock: nat, q: seq<Byte>, r: seq<Byte>, at: nat)
    requires RingOf(c.slots, history, clock) && c.next == |history| % SLOTS
    requires Storable(q, r) && clock <= at
    ensures HoldsStores(Store(c, q, r, at % U32).slots, history + [Stored(q, r, at)], at)
  {
    var n, h', slots' := |history|, history + [Stored(q, r, at)], Store(c, q, r, at % U32).slots;
    forall j | Oldest(n + 1) <= j < n + 1
      ensures IsCopy(slots'[j % SLOTS], h'[j])
      ensures !slots'[j % SLOTS].valid ==> at - h'[j].at > TTL_MS
    {
      StoredCopy(c, history, clock, q, r, at, j);
    }
  }

  lemma StoringLeavesRest(slots: seq<Entry>, n: nat, e: Entry)
    requires RestIsEmpty(slots, n) && |slots| == SLOTS
    ensures RestIsEmpty(slots[n % SLOTS := e], n + 1)
  {
    if n < SLOTS { SmallResidue(n); }
  }

  lemma SmallResidue(n: nat)
    requires n < SLOTS
    ensures n % SLOTS == n
  {
  }

  lemma NextResidue(n: nat)
    ensures (n % SLOTS + 1) % SLOTS == (n + 1) % SLOTS
  {
  }

  lemma StoringKeepsRing(c: Cache, history: seq<Stored>, clock: nat, q: seq<Byte>, r: seq<Byte>, at: nat)
    requires RingOf(c.slots, history, clock) && c.next == |history| % SLOTS
    requires Storable(q, r) && clock <= at
    ensures RingOf(Store(c, q, r, at % U32).slots, history + [Stored(q, r, at)], at)
    ensures Store(c, q, r, at % U32).next == (|history| + 1) % SLOTS
  {
    StoringHolds(c, history, clock, q, r, at);
    StoringLeavesRest(c.slots, |history|, StoredEntry(q, r, at % U32));
    NextResidue(|history|);
  }

  lemma DroppingKeepsLatest(slots: seq<Entry>, after: seq<Entry>, history: seq<Stored>, now: nat)
    requires |slots| == SLOTS && LatestOnly(slots, history) && OnlyDropsExpired(slots, after, now)
    ensures LatestOnly(after, history)
  {
    forall j, m | Oldest(|history|) <= j < m < |history| && SameQuestion(history[j].query, history[m].query)
      ensures !after[j % SLOTS].valid
    {
      assert !slots[j % SLOTS].valid;
    }
  }

  /** The copy of a stored answer is not valid if no slot holds its key. */
  lemma CopyWithoutKey(slots: seq<Entry>, i: nat, st: Stored, q: seq<Byte>)
    requires i < |slots| && IsCopy(slots[i], st) && SameQuestion(st.query, q) && Get(slots, Key(q)) == None
    ensures !slots[i].valid
  {
    KeyOfCopy(slots[i], st);
    assert !HasKey(slots[i], Key(q));
  }

  lemma StoringKeepsLatest(c: Cache, history: seq<Stored>, clock: nat, q: seq<Byte>, r: seq<Byte>, at: nat)
    requires RingOf(c.slots, history, clock) && LatestOnly(c.slots, history) && c.next == |history| % SLOTS
    requires Storable(q, r) && Get(c.slots, Key(q)) == None
    ensures LatestOnly(Store(c, q, r, at % U32).slots, history + [Stored(q, r, at)])
  {
    var n := |history|;
    var h' := history + [Stored(q, r, at)];
    var slots' := Store(c, q, r, at % U32).slots;
    forall j, m | Oldest(n + 1) <= j < m < n + 1 && SameQuestion(h'[j].query, h'[m].query)
      ensures !slots'[j % SLOTS].valid
    {
      ResiduesDiffer(j, n);
      assert slots'[j % SLOTS] == c.slots[j % SLOTS] && h'[j] == history[j];
      if m == n {
        CopyWithoutKey(c.slots, j % SLOTS, history[j], q);
      } else {
        assert h'[m] == history[m];
      }
    }
  }

  lemma InvKept(s: State, r: Request)
    requires Inv(s) && CanServe(s, r)
    ensures Inv(Step(s, r))
  {
    var q := r.query;
    if |q| < HEADER || r.captive {
      DroppingKeepsRing(s.cache.slots, s.cache.slots, s.history, s.clock, r.storeAt);
    } else {
      var now := r.lookupAt % U32;
      var a := Lookup(s.cache, q, now);
      SearchIsExact(s.cache.slots, q, now, 0);
      DroppingKeepsRing(s.cache.slots, a.cache.slots, s.history, s.clock, r.lookupAt);
      DroppingKeepsLatest(s.cache.slots, a.cache.slots, s.history, now);
      LookupReadsMap(s.cache, q, now, Key(q));
      if Stores(s, r) {
        StoringKeepsLatest(a.cache, s.history, r.lookupAt, q, r.upstream.value, r.storeAt);
        StoringKeepsRing(a.cache, s.history, r.lookupAt, q, r.upstream.value, r.storeAt);
        StoreUpdatesMap(a.cache, q, r.upstream.value, r.storeAt % U32, Key(q));
      } else {
        DroppingKeepsRing(a.cache.slots, a.cache.slots, s.history, r.lookupAt, r.storeAt);
      }
    }
  }

  ghost predicate IsRun(trace: seq<State>, rs: seq<Request>) {
    && |trace| == |rs| + 1
    && trace[0] == State(Cache(seq(SLOTS, _ => EMPTY_ENTRY), 0), [], 0)
    && forall k :: 0 <= k < |rs| ==> CanServe(trace[k], rs[k]) && trace[k + 1] == Step(trace[k], rs[k])
  }

  /** Over every run of the request loop the ring and its keys stay in order. */
  lemma {:induction false} InvOverRuns(trace: seq<State>, rs: seq<Request>)
    requires IsRun(trace, rs)
    ensures Inv(trace[|rs|])
  {
    if |rs| > 0 {
      var n := |rs| - 1;
      InvOverRuns(trace[..n + 1], rs[..n]);
      InvKept(trace[n], rs[n]);
    }
  }

  /** Which of the last sixteen stores a hit comes from. */
  ghost predicate HitFrom(s: State, r: Request, j: nat) {
    Oldest(|s.history|) <= j < |s.history| && SameQuestion(s.history[j].query, r.query)
  }

  /** The store that a valid slot holds is the latest one under its key. */
  lemma SlotSource(s: State, i: nat, q: seq<Byte>) returns (j: nat)
    requires Inv(s) && i < SLOTS && |q| >= HEADER && HasKey(s.cache.slots[i], Key(q))
    ensures Oldest(|s.history|) <= j < |s.history| && IsCopy(s.cache.slots[i], s.history[j])
    ensures SameQuestion(s.history[j].query, q)
    ensures forall m :: j < m < |s.history| ==> !SameQuestion(s.history[m].query, q)
  {
    j := SlotOwner(|s.history|, i);
    KeyOfCopy(s.cache.slots[i], s.history[j]);
    forall m | j < m < |s.history| ensures !SameQuestion(s.history[m].query, q) {
      var same := SameQuestion(s.history[j].query, s.history[m].query);
    }
  }

  lemma ReplyOfCopy(e: Entry, st: Stored, q: seq<Byte>)
    requires IsCopy(e, st) && |q| >= 2
    ensures Relabeled(q, e.reply) == q[..2] + st.reply[2..]
  {
  }

  lemma AgeOfCopy(e: Entry, st: Stored, now: nat)
    requires IsCopy(e, st) && !Expired(e, now % U32) && st.at <= now
    ensures (now - st.at) % U32 <= TTL_MS
    ensures now - st.at < U32 ==> now - st.at <= TTL_MS
  {
    TrueAge(st.at, now);
  }

  lemma HitIsServed(c: Cache, r: Request) returns (i: nat)
    requires c.next < |c.slots| && GoodSlots(c.slots) && |r.query| >= HEADER && !r.captive
    requires Lookup(c, r.query, r.lookupAt % U32).reply.Some?
    ensures i < |c.slots| && HasKey(c.slots[i], Key(r.query)) && !Expired(c.slots[i], r.lookupAt % U32)
    ensures Serve(c, r).reply == Relabeled(r.query, c.slots[i].reply)
  {
    SearchIsExact(c.slots, r.query, r.lookupAt % U32, 0);
    i := Search(c.slots, r.query, r.lookupAt % U32, 0).hit.value;
  }

  /**
   Every hit is the most recent upstream answer to that question, one of the last sixteen to any,
   under the new ID, at most a minute old by the 32-bit clock: by the true clock too, if the
   answer is younger than 2^32 ms.
   */
  lemma HitsAreRecent(s: State, r: Request) returns (j: nat)
    requires Inv(s) && CanServe(s, r) && |r.query| >= HEADER && !r.captive
    requires Lookup(s.cache, r.query, r.lookupAt % U32).reply.Some?
    ensures HitFrom(s, r, j)
    ensures forall m :: j < m < |s.history| ==> !SameQuestion(s.history[m].query, r.query)
    ensures Serve(s.cache, r).reply == r.query[..2] + s.history[j].reply[2..]
    ensures (r.lookupAt - s.history[j].at) % U32 <= 60000
    ensures r.lookupAt - s.history[j].at < U32 ==> r.lookupAt - s.history[j].at <= 60000
  {
    var i := HitIsServed(s.cache, r);
    j := SlotSource(s, i, r.query);
    ReplyOfCopy(s.cache.slots[i], s.history[j], r.query);
    AgeOfCopy(s.cache.slots[i], s.history[j], r.lookupAt);
  }

  lemma KeyOfCopy(e: Entry, st: Stored)
    requires IsCopy(e, st)
    ensures |e.query| >= HEADER && e.query[HEADER..] == Key(st.query)
  {
    assert e.query[HEADER..] == e.query[2..][HEADER - 2..];
    assert st.query[HEADER..] == st.query[2..][HEADER - 2..];
  }

  /** A stored answer is found until it is a minute old or sixteen more have been stored. */
  lemma StoredAnswersAreFound(s: State, r: Request, j: nat)
    requires Inv(s) && CanServe(s, r) && !r.captive && HitFrom(s, r, j)
    requires r.lookupAt - s.history[j].at <= 60000
    ensures Lookup(s.cache, r.query, r.lookupAt % U32).reply == Some(r.query[..2] + s.history[j].reply[2..])
  {
    var now := r.lookupAt % U32;
    var e := s.cache.slots[j % SLOTS];
    assert IsCopy(e, s.history[j]) && e.valid;
    KeyOfCopy(e, s.history[j]);
    GetIsUnique(s.cache.slots, Key(r.query), j % SLOTS);
    TrueAge(s.history[j].at, r.lookupAt);
    LookupReadsMap(s.cache, r.query, now, Key(r.query));
  }

  // ---- What every request is answered with ---------------------------------------------------------------------

  /** Where the copied bytes end with the question, the reply says what the captive answerer should. */
  ghost predicate IsCaptiveAnswer(q: seq<Byte>, reply: seq<Byte>) {
    && |reply| <= 216
    && forall x :: Asks(q, x) && Min(|q|, 200) == EndOf(x) ==> DecodeMessage(reply) == Some(Expected(q, x))
  }

  lemma CaptiveAnswers(q: seq<Byte>)
    ensures IsCaptiveAnswer(q, CaptiveReply(q, MAX_PACKET))
  {
    forall x | Asks(q, x) && Min(|q|, 200) == EndOf(x)
      ensures DecodeMessage(CaptiveReply(q, MAX_PACKET)) == Some(Expected(q, x))
    {
      CaptiveReplyDecodesExactly(q, x, MAX_PACKET);
    }
  }

  /** The answer bound to the question, if it is at most a minute old by the 32-bit clock. */
  function Current(slots: seq<Entry>, q: seq<Byte>, now: nat): Option<seq<Byte>>
    requires |q| >= 12
  {
    match Get(slots, Key(q))
    case None => None
    case Some(h) => if (now - h.savedMs) % U32 <= 60000 then Some(h.reply) else None
  }

  ghost predicate GoodCache(c: Cache) {
    c.next < |c.slots| && GoodSlots(c.slots) && DistinctKeys(c.slots)
  }

  /** The binding that answers is long enough to carry an ID. */
  lemma CurrentIsWhole(c: Cache, q: seq<Byte>, now: nat)
    requires GoodCache(c) && |q| >= 12
    ensures Current(c.slots, q, now).Some? ==> |Current(c.slots, q, now).value| >= 12
  {
    var i := SlotOf(c.slots, Key(q));
    if i < |c.slots| { assert c.slots[i].valid; }
  }

  /** What is sent, and what the question is bound to afterwards, for one request. */
  ghost predicate RightAnswer(c: Cache, r: Request, v: Served) {
    if |r.query| < 12 then v == Served(c, [])
    else if r.captive then v.cache == c && IsCaptiveAnswer(r.query, v.reply)
    else
      match Current(c.slots, r.query, r.lookupAt % U32)
      case Some(held) =>
        && |held| >= 12 && v.reply == r.query[..2] + held[2..] && v.cache.next == c.next
        && Get(v.cache.slots, Key(r.query)) == Get(c.slots, Key(r.query))
      case None =>
        if r.upstream.Some? then
          && v.reply == r.upstream.value && |v.reply| >= 12 && v.cache.next == (c.next + 1) % 16
          && Get(v.cache.slots, Key(r.query)) == Some(Held([0, 0] + v.reply[2..], r.storeAt % U32))
        else
          && IsCaptiveAnswer(r.query, v.reply) && v.cache.next == c.next
          && Get(v.cache.slots, Key(r.query)) == None
  }

  lemma HitReplies(c: Cache, r: Request)
    requires GoodCache(c) && GoodRequest(r) && |r.query| >= 12 && !r.captive
    requires Current(c.slots, r.query, r.lookupAt % U32).Some?
    ensures RightAnswer(c, r, Serve(c, r))
  {
    var now := r.lookupAt % U32;
    LookupReadsMap(c, r.query, now, Key(r.query));
    CurrentIsWhole(c, r.query, now);
  }

  lemma MissReplies(c: Cache, r: Request)
    requires GoodCache(c) && GoodRequest(r) && |r.query| >= 12 && !r.captive
    requires Current(c.slots, r.query, r.lookupAt % U32).None?
    ensures RightAnswer(c, r, Serve(c, r))
  {
    var now := r.lookupAt % U32;
    var a := Lookup(c, r.query, now);
    LookupReadsMap(c, r.query, now, Key(r.query));
    if r.upstream.Some? {
      StoreUpdatesMap(a.cache, r.query, r.upstream.value, r.storeAt % U32, Key(r.query));
    } else {
      CaptiveAnswers(r.query);
    }
  }

  /**
   Every request: a short datagram gets nothing; proxy mode answers by itself and leaves the cache
   alone; a current binding answers under the new ID; otherwise the upstream's bytes are sent as
   they are and bound, or, if the upstream was not reached, the captive answer is sent.
   */
  lemma RepliesExactly(c: Cache, r: Request)
    requires GoodCache(c) && GoodRequest(r)
    ensures RightAnswer(c, r, Serve(c, r))
  {
    if |r.query| < 12 {
    } else if r.captive {
      CaptiveAnswers(r.query);
    } else if Current(c.slots, r.query, r.lookupAt % U32).Some? {
      HitReplies(c, r);
    } else {
      MissReplies(c, r);
    }
  }

  /** What a request does to the bindings of other questions: only expiry and the slot taken over. */
  lemma OthersKeepBinding(c: Cache, r: Request, other: seq<Byte>)
    requires GoodCache(c) && GoodRequest(r) && |r.query| >= 12 && other != Key(r.query)
    ensures var after := Get(Serve(c, r).cache.slots, other);
            after != Get(c.slots, other) ==>
              && after == None && !r.captive
              && (!Fresh(Get(c.slots, other).value, r.lookupAt % U32)
                  || (r.upstream.Some? && HasKey(c.slots[c.next], other)))
  {
    if !r.captive {
      var now := r.lookupAt % U32;
      var a := Lookup(c, r.query, now);
      LookupReadsMap(c, r.query, now, other);
      if a.reply.None? && r.upstream.Some? {
        StoreUpdatesMap(a.cache, r.query, r.upstream.value, r.storeAt % U32, other);
        SearchIsExact(c.slots, r.query, now, 0);
      }
    }
  }

  /**
   A question answered upstream and asked again within a minute, under any ID, is answered with
   the same bytes from the cache, whatever the upstream would say now.
   */
  lemma RepeatIsCached(s: State, r: Request, again: Request)
    requires Inv(s) && CanServe(s, r) && |r.query| >= 12 && !r.captive && r.upstream.Some?
    requires Current(s.cache.slots, r.query, r.lookupAt % U32) == None
    requires CanServe(Step(s, r), again) && !again.captive && SameQuestion(r.query, again.query)
    requires again.lookupAt - r.storeAt <= 60000
    ensures Serve(s.cache, r).reply == r.upstream.value
    ensures Serve(Step(s, r).cache, again).reply == again.query[..2] + r.upstream.value[2..]
  {
    InvKept(s, r);
    RepliesExactly(s.cache, r);
    LookupReadsMap(s.cache, r.query, r.lookupAt % U32, Key(r.query));
    var n := |s.history|;
    assert Step(s, r).history == s.history + [Stored(r.query, r.upstream.value, r.storeAt)];
    StoredAnswersAreFound(Step(s, r), again, n);
  }

  // ---- The hash in closed form ------------------------------------------------------------------------------------

  function Pow31(k: nat): nat {
    if k == 0 then 1 else 31 * Pow31(k - 1)
  }

  /** The bytes from `i` to `n`, each times 31 to the number of bytes behind it. */
  function WeightedSum(q: seq<Byte>, i: nat, n: nat): nat
    requires i <= n <= |q|
    decreases n - i
  {
    if i == n then 0 else q[i] * Pow31(n - 1 - i) + WeightedSum(q, i + 1, n)
  }

  lemma WeightGrows(b: nat, p: nat)
    ensures b * (31 * p) == 31 * (b * p)
  {
  }

  lemma {:induction false} SumGrows(q: seq<Byte>, i: nat, n: nat)
    requires i < n <= |q|
    ensures WeightedSum(q, i, n) == 31 * WeightedSum(q, i, n - 1) + q[n - 1]
    decreases n - i
  {
    if i < n - 1 {
      SumGrows(q, i + 1, n);
      WeightGrows(q[i], Pow31(n - 2 - i));
    }
  }

  lemma Wraps(x: nat, b: nat)
    ensures (x % U32 * 31 + b) % U32 == (31 * x + b) % U32
  {
  }

  /** The accumulator is the weighted sum of the bytes behind the header, modulo 2^32. */
  lemma {:induction false} HashIsWeightedSum(q: seq<Byte>, n: nat)
    requires 12 <= n <= |q|
    ensures HashUpTo(q, n) == WeightedSum(q, 12, n) % 0x1_0000_0000
  {
    if n > 12 {
      HashIsWeightedSum(q, n - 1);
      SumGrows(q, 12, n);
      Wraps(WeightedSum(q, 12, n - 1), q[n - 1]);
    }
  }
}
