/**
 The shared clipboard of `main/clipboard.c`: a ring of recent texts, the oldest dropped when it
 is full, and a list of favorites that are never dropped by themselves.
 */
module Clipboard {
  import opened Prelude

  const RING_MAX: nat := 15
  const FAV_MAX: nat := 8
  const TEXT_MAX: nat := 255

  type Text = s: string | |s| <= TEXT_MAX
  type Id = i: int | 0 <= i < U32

  datatype Entry = Entry(text: Text, isLink: bool, id: Id)
  datatype Store = Store(ring: seq<Entry>, favorites: seq<Entry>, nextId: Id)

  // ---- Links -----------------------------------------------------------------------------

  /** `strncasecmp(text, prefix, strlen(prefix)) == 0`. */
  predicate StartsWithNoCase(text: string, prefix: string) {
    |prefix| <= |text| && forall k :: 0 <= k < |prefix| ==> Lower(text[k]) == Lower(prefix[k])
  }

  predicate IsBlank(c: char) {
    c == ' ' || c == '\t'
  }

  predicate IsLinkAt(text: string, i: nat)
    requires i <= |text|
  {
    StartsWithNoCase(text[i..], "http://") || StartsWithNoCase(text[i..], "https://")
  }

  function FirstNonBlank(text: string): (i: nat)
    ensures i <= |text| && (forall k :: 0 <= k < i ==> IsBlank(text[k])) && (i < |text| ==> !IsBlank(text[i]))
  {
    if text == "" || !IsBlank(text[0]) then 0 else 1 + FirstNonBlank(text[1..])
  }

  predicate LooksLikeLink(text: string) {
    IsLinkAt(text, FirstNonBlank(text))
  }

  method CheckLink(text: string) returns (isLink: bool)
    ensures isLink == LooksLikeLink(text)
  {
    var i := 0;
    while i < |text| && IsBlank(text[i])
      invariant 0 <= i <= |text| && forall k :: 0 <= k < i ==> IsBlank(text[k])
    {
      i := i + 1;
    }
    assert i == FirstNonBlank(text);
    isLink := StartsWithNoCase(text[i..], "http://") || StartsWithNoCase(text[i..], "https://");
  }

  // ---- The operations as functions -----------------------------------------------------------

  function NewEntry(text: string, id: Id): Entry {
    var t := Truncated(text, TEXT_MAX);
    Entry(t, LooksLikeLink(t), id)
  }

  /** The ring with room for one more entry. */
  function WithRoom(ring: seq<Entry>): seq<Entry> {
    if |ring| == RING_MAX then ring[1..] else ring
  }

  function Added(s: Store, text: string): Store {
    if text == "" then s
    else Store(WithRoom(s.ring) + [NewEntry(text, s.nextId)], s.favorites, (s.nextId + 1) % U32)
  }

  function EntryId(e: Entry): Id {
    e.id
  }

  function PositionOf(es: seq<Entry>, id: Id): nat {
    IndexBy(EntryId, es, id)
  }

  datatype Place = InRing(i: nat) | InFavorites(i: nat) | Nowhere

  function Find(s: Store, id: Id): (p: Place)
    ensures p.InRing? ==> p.i < |s.ring| && s.ring[p.i].id == id
    ensures p.InFavorites? ==> p.i < |s.favorites| && s.favorites[p.i].id == id
  {
    if PositionOf(s.ring, id) < |s.ring| then InRing(PositionOf(s.ring, id))
    else if PositionOf(s.favorites, id) < |s.favorites| then InFavorites(PositionOf(s.favorites, id))
    else Nowhere
  }

  function Pinned(s: Store, id: Id): Store {
    if |s.favorites| >= FAV_MAX then s else
      match Find(s, id)
      case InRing(i) => s.(favorites := s.favorites + [s.ring[i]], ring := RemoveAt(s.ring, i))
      case _ => s
  }

  function Unpinned(s: Store, id: Id): Store {
    match Find(s, id)
    case InFavorites(i) => Added(s.(favorites := RemoveAt(s.favorites, i)), s.favorites[i].text)
    case _ => s
  }

  function Deleted(s: Store, id: Id): Store {
    match Find(s, id)
    case InRing(i) => s.(ring := RemoveAt(s.ring, i))
    case InFavorites(i) => s.(favorites := RemoveAt(s.favorites, i))
    case Nowhere => s
  }

  datatype Op = Add(text: string) | Pin(id: Id) | Unpin(id: Id) | Delete(id: Id)

  function Step(s: Store, op: Op): Store {
    match op
    case Add(text) => Added(s, text)
    case Pin(id) => Pinned(s, id)
    case Unpin(id) => Unpinned(s, id)
    case Delete(id) => Deleted(s, id)
  }

  function Run(s: Store, ops: seq<Op>): Store {
    if ops == [] then s else Step(Run(s, ops[..|ops| - 1]), ops[|ops| - 1])
  }

  const EMPTY := Store([], [], 1)

  // ---- The invariant -----------------------------------------------------------------------------

  predicate GoodEntries(es: seq<Entry>, nextId: Id) {
    forall i :: 0 <= i < |es| ==> es[i].id < nextId && es[i].text != ""
  }

  predicate Increasing(ring: seq<Entry>) {
    forall i, j :: 0 <= i < j < |ring| ==> ring[i].id < ring[j].id
  }

  predicate DistinctIds(es: seq<Entry>) {
    forall i, j :: 0 <= i < j < |es| ==> es[i].id != es[j].id
  }

  predicate Apart(ring: seq<Entry>, favorites: seq<Entry>) {
    forall i, j :: 0 <= i < |ring| && 0 <= j < |favorites| ==> ring[i].id != favorites[j].id
  }

  predicate Inv(s: Store) {
    && |s.ring| <= 15 && |s.favorites| <= 8
    && GoodEntries(s.ring, s.nextId) && GoodEntries(s.favorites, s.nextId)
    && Increasing(s.ring) && DistinctIds(s.favorites) && Apart(s.ring, s.favorites)
  }

  /** The operation takes a fresh id. */
  predicate TakesId(s: Store, op: Op) {
    (op.Add? && op.text != "") || (op.Unpin? && Find(s, op.id).InFavorites?)
  }

  /** Taking an entry out of a list keeps what the invariant says about it. */
  lemma RemovedKeepsIds(es: seq<Entry>, i: nat, nextId: Id)
    requires i < |es|
    ensures GoodEntries(es, nextId) ==> GoodEntries(RemoveAt(es, i), nextId)
    ensures Increasing(es) ==> Increasing(RemoveAt(es, i))
    ensures DistinctIds(es) ==> DistinctIds(RemoveAt(es, i))
  {
  }

  lemma RemovedStaysApart(ring: seq<Entry>, favorites: seq<Entry>, i: nat)
    requires Apart(ring, favorites)
    ensures i < |ring| ==> Apart(RemoveAt(ring, i), favorites)
    ensures i < |favorites| ==> Apart(ring, RemoveAt(favorites, i))
  {
  }

  lemma RoomKeepsInv(s: Store)
    requires Inv(s)
    ensures Inv(s.(ring := WithRoom(s.ring))) && |WithRoom(s.ring)| < RING_MAX
  {
    if |s.ring| == RING_MAX {
      assert WithRoom(s.ring) == RemoveAt(s.ring, 0);
      RemovedKeepsIds(s.ring, 0, s.nextId);
      RemovedStaysApart(s.ring, s.favorites, 0);
    }
  }

  lemma PushKeepsInvExactly(s: Store, e: Entry)
    requires Inv(s) && |s.ring| < RING_MAX && e.id == s.nextId && e.text != ""
    ensures Inv(Store(s.ring + [e], s.favorites, (s.nextId + 1) % U32)) <==> s.nextId < U32 - 1
  {
    var r := Store(s.ring + [e], s.favorites, (s.nextId + 1) % U32);
    assert r.ring[|s.ring|] == e;
    if s.nextId < U32 - 1 {
      assert r.nextId == s.nextId + 1;
    } else {
      assert r.nextId == 0;
    }
  }

  lemma AddedKeepsInvExactly(s: Store, text: string)
    requires Inv(s) && text != ""
    ensures Inv(Added(s, text)) <==> s.nextId < U32 - 1
  {
    RoomKeepsInv(s);
    PushKeepsInvExactly(s.(ring := WithRoom(s.ring)), NewEntry(text, s.nextId));
  }

  lemma RemovingKeepsInv(s: Store, id: Id)
    requires Inv(s)
    ensures Inv(Deleted(s, id))
  {
    match Find(s, id)
    case InRing(i) =>
      RemovedKeepsIds(s.ring, i, s.nextId);
      RemovedStaysApart(s.ring, s.favorites, i);
    case InFavorites(i) =>
      RemovedKeepsIds(s.favorites, i, s.nextId);
      RemovedStaysApart(s.ring, s.favorites, i);
    case Nowhere =>
  }

  predicate Marked(e: Entry) {
    e.isLink == LooksLikeLink(e.text)
  }

  /** Every entry is marked as a link exactly if its text looks like one. */
  predicate LinksMarked(es: seq<Entry>) {
    forall i :: 0 <= i < |es| ==> Marked(es[i])
  }

  lemma AddedKeepsLinks(s: Store, text: string)
    requires LinksMarked(s.ring)
    ensures LinksMarked(Added(s, text).ring)
  {
    if text != "" {
      var ring, e := WithRoom(s.ring), NewEntry(text, s.nextId);
      assert LinksMarked(ring);
      assert Marked(e);
      assert LinksMarked(ring + [e]);
    }
  }

  lemma RemovedKeepsLinks(es: seq<Entry>, i: nat)
    requires i < |es| && LinksMarked(es)
    ensures LinksMarked(RemoveAt(es, i))
  {
    forall k | 0 <= k < |es| - 1 ensures Marked(RemoveAt(es, i)[k]) {
      assert Marked(es[if k < i then k else k + 1]);
    }
  }

  lemma PinnedKeepsLinks(s: Store, id: Id)
    requires LinksMarked(s.ring) && LinksMarked(s.favorites)
    ensures LinksMarked(Pinned(s, id).ring) && LinksMarked(Pinned(s, id).favorites)
  {
    if |s.favorites| < FAV_MAX && Find(s, id).InRing? {
      var i := Find(s, id).i;
      RemovedKeepsLinks(s.ring, i);
      assert Marked(s.ring[i]);
    }
  }

  lemma DeletedKeepsLinks(s: Store, id: Id)
    requires LinksMarked(s.ring) && LinksMarked(s.favorites)
    ensures LinksMarked(Deleted(s, id).ring) && LinksMarked(Deleted(s, id).favorites)
  {
    match Find(s, id)
    case InRing(i) => RemovedKeepsLinks(s.ring, i);
    case InFavorites(i) => RemovedKeepsLinks(s.favorites, i);
    case Nowhere =>
  }

  /** The link mark is right for every entry, wherever it came from. */
  lemma LinksMarkedKept(s: Store, op: Op)
    requires LinksMarked(s.ring) && LinksMarked(s.favorites)
    ensures LinksMarked(Step(s, op).ring) && LinksMarked(Step(s, op).favorites)
  {
    match op
    case Add(text) => AddedKeepsLinks(s, text);
    case Pin(id) => PinnedKeepsLinks(s, id);
    case Unpin(id) =>
      if Find(s, id).InFavorites? {
        var i := Find(s, id).i;
        RemovedKeepsLinks(s.favorites, i);
        AddedKeepsLinks(s.(favorites := RemoveAt(s.favorites, i)), s.favorites[i].text);
      }
    case Delete(id) => DeletedKeepsLinks(s, id);
  }

  lemma MovedStaysApart(ring: seq<Entry>, favorites: seq<Entry>, i: nat)
    requires i < |ring| && Increasing(ring) && DistinctIds(favorites) && Apart(ring, favorites)
    ensures DistinctIds(favorites + [ring[i]]) && Apart(RemoveAt(ring, i), favorites + [ring[i]])
  {
    RemovedStaysApart(ring, favorites, i);
    assert forall k :: 0 <= k < |ring| && k != i ==> ring[k].id != ring[i].id;
  }

  lemma PinningKeepsInv(s: Store, id: Id)
    requires Inv(s)
    ensures Inv(Pinned(s, id))
  {
    if |s.favorites| < FAV_MAX && Find(s, id).InRing? {
      var i := Find(s, id).i;
      RemovedKeepsIds(s.ring, i, s.nextId);
      MovedStaysApart(s.ring, s.favorites, i);
    }
  }

  lemma UnpinningKeepsInvExactly(s: Store, id: Id)
    requires Inv(s)
    ensures Inv(Unpinned(s, id)) <==> !(Find(s, id).InFavorites? && s.nextId == U32 - 1)
  {
    if Find(s, id).InFavorites? {
      var i := Find(s, id).i;
      RemovingKeepsInv(s, id);
      AddedKeepsInvExactly(s.(favorites := RemoveAt(s.favorites, i)), s.favorites[i].text);
    }
  }

  lemma NextIdMoves(s: Store, op: Op)
    requires Inv(s)
    ensures Step(s, op).nextId == if TakesId(s, op) then (s.nextId + 1) % U32 else s.nextId
  {
  }

  /** Ids stay distinct, ring ids increasing and texts non-empty exactly until the id counter wraps. */
  lemma InvKeptExactly(s: Store, op: Op)
    requires Inv(s)
    ensures Inv(Step(s, op)) <==> !(TakesId(s, op) && s.nextId == U32 - 1)
    ensures Step(s, op).nextId == if TakesId(s, op) then (s.nextId + 1) % U32 else s.nextId
  {
    NextIdMoves(s, op);
    match op
    case Add(text) => if text != "" { AddedKeepsInvExactly(s, text); }
    case Pin(id) => PinningKeepsInv(s, id);
    case Unpin(id) => UnpinningKeepsInvExactly(s, id);
    case Delete(id) => RemovingKeepsInv(s, id);
  }

  function IdCost(op: Op): nat {
    if op.Add? || op.Unpin? then 1 else 0
  }

  function AddsAndUnpins(ops: seq<Op>): nat {
    if ops == [] then 0 else AddsAndUnpins(ops[..|ops| - 1]) + IdCost(ops[|ops| - 1])
  }

  lemma StepUsesIds(s: Store, op: Op)
    requires Inv(s) && s.nextId + IdCost(op) < U32
    ensures Inv(Step(s, op)) && Step(s, op).nextId <= s.nextId + IdCost(op)
  {
    InvKeptExactly(s, op);
  }

  /** As long as the id counter has room, every sequence of operations keeps the invariant. */
  lemma {:induction false} InvOverRuns(s: Store, ops: seq<Op>)
    requires Inv(s) && s.nextId + AddsAndUnpins(ops) < U32
    ensures Inv(Run(s, ops)) && Run(s, ops).nextId <= s.nextId + AddsAndUnpins(ops)
  {
    if ops != [] {
      var init := ops[..|ops| - 1];
      InvOverRuns(s, init);
      StepUsesIds(Run(s, init), ops[|ops| - 1]);
    }
  }

  /** From an empty store: fewer than 2^32 - 1 adds and unpins, any number of pins and deletes. */
  lemma InvFromEmpty(ops: seq<Op>)
    requires AddsAndUnpins(ops) < U32 - 1
    ensures Inv(Run(EMPTY, ops))
  {
    InvOverRuns(EMPTY, ops);
  }

  // ---- Conservation -----------------------------------------------------------------------------------

  function TextsInOrder(es: seq<Entry>): (r: seq<string>)
    ensures |r| == |es| && forall k :: 0 <= k < |r| ==> r[k] == es[k].text
  {
    seq(|es|, k requires 0 <= k < |es| => es[k].text)
  }

  function Texts(es: seq<Entry>): multiset<string> {
    multiset(TextsInOrder(es))
  }

  function AllTexts(s: Store): multiset<string> {
    Texts(s.ring) + Texts(s.favorites)
  }

  lemma TextsOfConcat(a: seq<Entry>, b: seq<Entry>)
    ensures Texts(a + b) == Texts(a) + Texts(b)
  {
    assert TextsInOrder(a + b) == TextsInOrder(a) + TextsInOrder(b);
  }

  lemma TextsOfPush(es: seq<Entry>, e: Entry)
    ensures Texts(es + [e]) == Texts(es) + multiset{e.text}
  {
    TextsOfConcat(es, [e]);
    assert TextsInOrder([e]) == [e.text];
  }

  lemma TextsOfRemoved(es: seq<Entry>, i: nat)
    requires i < |es|
    ensures Texts(es) == Texts(RemoveAt(es, i)) + multiset{es[i].text}
  {
    TextsOfConcat(es[..i], es[i + 1..]);
    TextsOfPush(es[..i], es[i]);
    TextsOfConcat(es[..i] + [es[i]], es[i + 1..]);
    assert es == es[..i] + [es[i]] + es[i + 1..];
  }

  /** What an add has to drop: the oldest ring text if the ring is full. */
  function Evicted(ring: seq<Entry>): multiset<string> {
    if |ring| == 15 then multiset{ring[0].text} else multiset{}
  }

  /** Texts an operation brings in, and texts it loses. */
  function TextsIn(op: Op): multiset<string> {
    if op.Add? && op.text != "" then multiset{Truncated(op.text, 255)} else multiset{}
  }

  function TextsOut(s: Store, op: Op): multiset<string> {
    match op
    case Add(text) => if text == "" then multiset{} else Evicted(s.ring)
    case Pin(id) => multiset{}
    case Unpin(id) => if Find(s, id).InFavorites? then Evicted(s.ring) else multiset{}
    case Delete(id) =>
      (match Find(s, id)
       case InRing(i) => multiset{s.ring[i].text}
       case InFavorites(i) => multiset{s.favorites[i].text}
       case Nowhere => multiset{})
  }

  lemma AddedConserves(s: Store, text: string)
    requires text != ""
    ensures AllTexts(Added(s, text)) + Evicted(s.ring) == AllTexts(s) + multiset{Truncated(text, TEXT_MAX)}
  {
    var ring := WithRoom(s.ring);
    if |s.ring| == RING_MAX {
      TextsOfRemoved(s.ring, 0);
      assert RemoveAt(s.ring, 0) == ring;
    }
    TextsOfPush(ring, NewEntry(text, s.nextId));
  }

  lemma PinnedConserves(s: Store, id: Id)
    ensures AllTexts(Pinned(s, id)) == AllTexts(s)
  {
    if |s.favorites| < FAV_MAX && Find(s, id).InRing? {
      var i := Find(s, id).i;
      TextsOfRemoved(s.ring, i);
      TextsOfPush(s.favorites, s.ring[i]);
    }
  }

  lemma UnpinnedConserves(s: Store, id: Id)
    requires Inv(s)
    ensures AllTexts(Unpinned(s, id)) + TextsOut(s, Unpin(id)) == AllTexts(s)
  {
    if Find(s, id).InFavorites? {
      var i := Find(s, id).i;
      var text := s.favorites[i].text;
      TextsOfRemoved(s.favorites, i);
      AddedConserves(s.(favorites := RemoveAt(s.favorites, i)), text);
      assert Truncated(text, TEXT_MAX) == text;
    }
  }

  lemma DeletedConserves(s: Store, id: Id)
    ensures AllTexts(Deleted(s, id)) + TextsOut(s, Delete(id)) == AllTexts(s)
  {
    match Find(s, id)
    case InRing(i) => TextsOfRemoved(s.ring, i);
    case InFavorites(i) => TextsOfRemoved(s.favorites, i);
    case Nowhere =>
  }

  /** No text appears or disappears except as listed: adds bring one, evictions and deletes lose one. */
  lemma TextsConserved(s: Store, op: Op)
    requires Inv(s)
    ensures AllTexts(Step(s, op)) + TextsOut(s, op) == AllTexts(s) + TextsIn(op)
  {
    match op
    case Add(text) => if text != "" { AddedConserves(s, text); }
    case Pin(id) => PinnedConserves(s, id);
    case Unpin(id) => UnpinnedConserves(s, id);
    case Delete(id) => DeletedConserves(s, id);
  }

  /** The texts brought in and lost along a sequence of operations. */
  function Brought(ops: seq<Op>): multiset<string> {
    if ops == [] then multiset{} else Brought(ops[..|ops| - 1]) + TextsIn(ops[|ops| - 1])
  }

  function Lost(s: Store, ops: seq<Op>): multiset<string> {
    if ops == [] then multiset{}
    else Lost(s, ops[..|ops| - 1]) + TextsOut(Run(s, ops[..|ops| - 1]), ops[|ops| - 1])
  }

  lemma Balance(before: multiset<string>, then': multiset<string>, after: multiset<string>,
                lost: multiset<string>, brought: multiset<string>, lose: multiset<string>, bring: multiset<string>)
    requires then' + lost == before + brought && after + lose == then' + bring
    ensures after + (lost + lose) == before + (brought + bring)
  {
    assert after + (lost + lose) == (after + lose) + lost == (then' + lost) + bring;
  }

  /** Over every sequence the texts held and lost are those held at first and brought in. */
  lemma {:induction false} TextsConservedOverRuns(s: Store, ops: seq<Op>)
    requires Inv(s) && s.nextId + AddsAndUnpins(ops) < U32
    ensures AllTexts(Run(s, ops)) + Lost(s, ops) == AllTexts(s) + Brought(ops)
  {
    if ops != [] {
      var init, last := ops[..|ops| - 1], ops[|ops| - 1];
      TextsConservedOverRuns(s, init);
      InvOverRuns(s, init);
      TextsConserved(Run(s, init), last);
      Balance(AllTexts(s), AllTexts(Run(s, init)), AllTexts(Run(s, ops)),
              Lost(s, init), Brought(init), TextsOut(Run(s, init), last), TextsIn(last));
    }
  }

  /** An unpinned text becomes the newest ring entry, even when the ring is full. */
  lemma UnpinReturnsText(s: Store, i: nat)
    requires Inv(s) && LinksMarked(s.favorites) && i < |s.favorites|
    ensures var r := Unpinned(s, s.favorites[i].id);
            && r.favorites == RemoveAt(s.favorites, i)
            && r.ring == WithRoom(s.ring) + [Entry(s.favorites[i].text, s.favorites[i].isLink, s.nextId)]
  {
    var id := s.favorites[i].id;
    assert PositionOf(s.ring, id) == |s.ring|;
    assert PositionOf(s.favorites, id) == i;
  }

  lemma FoundInRing(s: Store, i: nat)
    requires Inv(s) && i < |s.ring|
    ensures Find(s, s.ring[i].id) == InRing(i)
  {
    IndexByIs(EntryId, s.ring, s.ring[i].id, i);
  }

  lemma FoundInFavorites(s: Store, i: nat)
    requires Inv(s) && i < |s.favorites|
    ensures Find(s, s.favorites[i].id) == InFavorites(i)
  {
    IndexByIs(EntryId, s.favorites, s.favorites[i].id, i);
    IndexByIs(EntryId, s.ring, s.favorites[i].id, |s.ring|);
  }

  predicate InList(es: seq<Entry>, id: Id) {
    exists i :: 0 <= i < |es| && es[i].id == id
  }

  lemma PositionInList(es: seq<Entry>, id: Id)
    ensures InList(es, id) <==> PositionOf(es, id) < |es|
  {
    var i := PositionOf(es, id);
    if i < |es| { assert es[i].id == id; }
  }

  /**
   A pin moves the whole entry, with its text, mark and id, behind the favorites and closes the
   gap in the ring; with eight favorites, or for an id that is not in the ring, nothing changes.
   */
  lemma PinExactly(s: Store, id: Id)
    requires Inv(s)
    ensures forall i :: 0 <= i < |s.ring| && s.ring[i].id == id && |s.favorites| < 8 ==>
              Pinned(s, id) == Store(s.ring[..i] + s.ring[i + 1..], s.favorites + [s.ring[i]], s.nextId)
    ensures |s.favorites| >= 8 || !InList(s.ring, id) ==> Pinned(s, id) == s
  {
    PositionInList(s.ring, id);
    forall i | 0 <= i < |s.ring| && s.ring[i].id == id && |s.favorites| < 8
      ensures Pinned(s, id) == Store(s.ring[..i] + s.ring[i + 1..], s.favorites + [s.ring[i]], s.nextId)
    {
      FoundInRing(s, i);
    }
  }

  /** The ring as it is before an entry is added: without its oldest one if there are fifteen. */
  function Newest14(ring: seq<Entry>): seq<Entry> {
    if |ring| < 15 then ring else ring[1..]
  }

  /** An added text becomes the newest entry under a fresh id, cut to 255 characters. */
  lemma AddExactly(s: Store, text: string)
    requires Inv(s)
    ensures text == "" ==> Added(s, text) == s
    ensures text != "" ==>
              var kept := if |text| <= 255 then text else text[..255];
              && Added(s, text).ring == Newest14(s.ring) + [Entry(kept, LooksLikeLink(kept), s.nextId)]
              && Added(s, text).favorites == s.favorites
              && Added(s, text).nextId == (s.nextId + 1) % 0x1_0000_0000
  {
  }

  /** An unpin takes the favorite out and adds its text again; any other id changes nothing. */
  lemma UnpinExactly(s: Store, id: Id)
    requires Inv(s)
    ensures forall i :: 0 <= i < |s.favorites| && s.favorites[i].id == id ==>
              var text := s.favorites[i].text;
              Unpinned(s, id) == Store(Newest14(s.ring) + [Entry(text, LooksLikeLink(text), s.nextId)],
                                       s.favorites[..i] + s.favorites[i + 1..], (s.nextId + 1) % 0x1_0000_0000)
    ensures !InList(s.favorites, id) ==> Unpinned(s, id) == s
  {
    PositionInList(s.favorites, id);
    forall i | 0 <= i < |s.favorites| && s.favorites[i].id == id
      ensures var text := s.favorites[i].text;
              Unpinned(s, id) == Store(Newest14(s.ring) + [Entry(text, LooksLikeLink(text), s.nextId)],
                                       s.favorites[..i] + s.favorites[i + 1..], (s.nextId + 1) % 0x1_0000_0000)
    {
      FoundInFavorites(s, i);
      assert Truncated(s.favorites[i].text, TEXT_MAX) == s.favorites[i].text;
    }
  }

  /** A delete takes the one entry with the id out of the list that holds it, in order. */
  lemma DeleteExactly(s: Store, id: Id)
    requires Inv(s)
    ensures forall i :: 0 <= i < |s.ring| && s.ring[i].id == id ==>
              Deleted(s, id) == s.(ring := s.ring[..i] + s.ring[i + 1..])
    ensures forall i :: 0 <= i < |s.favorites| && s.favorites[i].id == id ==>
              Deleted(s, id) == s.(favorites := s.favorites[..i] + s.favorites[i + 1..])
    ensures !InList(s.ring, id) && !InList(s.favorites, id) ==> Deleted(s, id) == s
  {
    PositionInList(s.ring, id);
    PositionInList(s.favorites, id);
    forall i | 0 <= i < |s.ring| && s.ring[i].id == id
      ensures Deleted(s, id) == s.(ring := s.ring[..i] + s.ring[i + 1..])
    {
      FoundInRing(s, i);
    }
    forall i | 0 <= i < |s.favorites| && s.favorites[i].id == id
      ensures Deleted(s, id) == s.(favorites := s.favorites[..i] + s.favorites[i + 1..])
    {
      FoundInFavorites(s, i);
    }
  }

  lemma LinkStart(text: string, i: nat)
    requires i <= |text| && IsLinkAt(text, i)
    ensures i < |text| && Lower(text[i]) == 'h'
  {
    assert text[i..] != "";
    assert text[i..][0] == text[i];
  }

  /** A link is "http://" or "https://", in any case, behind nothing but blanks. */
  lemma LinkExactly(text: string)
    ensures LooksLikeLink(text) <==>
              exists i :: 0 <= i <= |text| && (forall k :: 0 <= k < i ==> text[k] in " \t")
                          && (StartsWithNoCase(text[i..], "http://") || StartsWithNoCase(text[i..], "https://"))
  {
    var n := FirstNonBlank(text);
    forall i | 0 <= i <= |text| && (forall k :: 0 <= k < i ==> text[k] in " \t")
               && (StartsWithNoCase(text[i..], "http://") || StartsWithNoCase(text[i..], "https://"))
      ensures i == n
    {
      LinkStart(text, i);
    }
  }

  predicate RemovesFavorite(op: Op, id: Id) {
    op == Unpin(id) || op == Delete(id)
  }

  lemma OthersStay(es: seq<Entry>, i: nat, k: nat)
    requires i < |es| && k < |es| && i != k
    ensures es[k] in RemoveAt(es, i)
  {
    assert RemoveAt(es, i)[if k < i then k else k - 1] == es[k];
  }

  lemma FavoriteStays(s: Store, op: Op, e: Entry)
    requires e in s.favorites && !RemovesFavorite(op, e.id)
    ensures e in Step(s, op).favorites
  {
    var k :| 0 <= k < |s.favorites| && s.favorites[k] == e;
    match op
    case Add(_) =>
    case Pin(id) =>
      assert s.favorites <= Pinned(s, id).favorites;
    case Unpin(id) =>
      if Find(s, id).InFavorites? { OthersStay(s.favorites, Find(s, id).i, k); }
    case Delete(id) =>
      if Find(s, id).InFavorites? { OthersStay(s.favorites, Find(s, id).i, k); }
  }

  /** A favorite leaves only by its own unpin or delete. */
  lemma {:induction false} FavoritesStayOverRuns(s: Store, ops: seq<Op>, e: Entry)
    requires Inv(s) && e in s.favorites && s.nextId + AddsAndUnpins(ops) < U32
    requires forall k :: 0 <= k < |ops| ==> !RemovesFavorite(ops[k], e.id)
    ensures e in Run(s, ops).favorites
  {
    if ops != [] {
      var init, last := ops[..|ops| - 1], ops[|ops| - 1];
      FavoritesStayOverRuns(s, init, e);
      InvOverRuns(s, init);
      FavoriteStays(Run(s, init), last, e);
    }
  }

  // ---- The imperative store -----------------------------------------------------------------------------

  /** `memmove(&a[at], &a[at + 1], ...)` over the first `count` entries. */
  method ShiftDown(a: array<Entry>, at: nat, count: nat)
    requires at < count <= a.Length
    modifies a
    ensures a[..count - 1] == RemoveAt(old(a[..count]), at)
  {
    var i := at;
    while i < count - 1
      invariant at <= i <= count - 1
      invariant forall k :: at <= k < i ==> a[k] == old(a[k + 1])
      invariant forall k :: 0 <= k < a.Length && !(at <= k < i) ==> a[k] == old(a[k])
    {
      a[i] := a[i + 1];
      i := i + 1;
    }
  }

  class ClipStore {
    const ring: array<Entry>
    var ringCount: nat
    const favorites: array<Entry>
    var favCount: nat
    var nextId: Id

    ghost predicate Valid()
      reads this
    {
      && ring.Length == RING_MAX && favorites.Length == FAV_MAX && ring != favorites
      && ringCount <= RING_MAX && favCount <= FAV_MAX
    }

    ghost function View(): Store
      requires Valid()
      reads this, ring, favorites
    {
      Store(ring[..ringCount], favorites[..favCount], nextId)
    }

    constructor ()
      ensures Valid() && fresh(ring) && fresh(favorites) && View() == EMPTY
    {
      ring := new Entry[RING_MAX];
      favorites := new Entry[FAV_MAX];
      ringCount, favCount, nextId := 0, 0, 1;
    }

    /** Drops the oldest entry of a full ring. */
    method MakeRoom()
      requires Valid()
      modifies this`ringCount, ring
      ensures Valid() && View() == old(View()).(ring := WithRoom(old(View()).ring)) && ringCount < RING_MAX
    {
      if ringCount == RING_MAX {
        ShiftDown(ring, 0, RING_MAX);
        ringCount := ringCount - 1;
        assert ring[..ringCount] == RemoveAt(old(ring[..RING_MAX]), 0);
      }
    }

    method Push(e: Entry)
      requires Valid() && ringCount < RING_MAX
      modifies this`ringCount, ring
      ensures Valid() && View() == old(View()).(ring := old(View()).ring + [e])
    {
      ring[ringCount] := e;
      ringCount := ringCount + 1;
    }

    /** The entry that an add fills in. */
    method MakeEntry(text: string) returns (e: Entry)
      ensures e == NewEntry(text, nextId)
    {
      var stored := Truncated(text, TEXT_MAX);
      var isLink := CheckLink(stored);
      e := Entry(stored, isLink, nextId);
    }

    method ClipAdd(text: string)
      requires Valid()
      modifies this, ring
      ensures Valid() && View() == Added(old(View()), text)
    {
      if text == "" { return; }
      MakeRoom();
      var e := MakeEntry(text);
      Push(e);
      nextId := (nextId + 1) % U32;
    }

    method FindIn(entries: array<Entry>, count: nat, id: Id) returns (i: nat)
      requires count <= entries.Length
      ensures i == PositionOf(entries[..count], id)
    {
      i := 0;
      while i < count
        invariant 0 <= i <= count && forall k :: 0 <= k < i ==> entries[k].id != id
      {
        if entries[i].id == id { break; }
        i := i + 1;
      }
      IndexByIs(EntryId, entries[..count], id, i);
    }

    method ClipFind(id: Id) returns (p: Place)
      requires Valid()
      ensures p == Find(View(), id)
    {
      var i := FindIn(ring, ringCount, id);
      if i < ringCount { return InRing(i); }
      i := FindIn(favorites, favCount, id);
      if i < favCount { return InFavorites(i); }
      return Nowhere;
    }

    /** Appends ring entry `i` to the favorites and closes the gap it leaves. */
    method MoveToFavorites(i: nat)
      requires Valid() && i < ringCount && favCount < FAV_MAX
      modifies this, ring, favorites
      ensures Valid() && nextId == old(nextId)
      ensures ring[..ringCount] == RemoveAt(old(ring[..ringCount]), i)
      ensures favorites[..favCount] == old(favorites[..favCount]) + [old(ring[i])]
    {
      favorites[favCount] := ring[i];
      favCount := favCount + 1;
      ShiftDown(ring, i, ringCount);
      ringCount := ringCount - 1;
    }

    method ClipPin(id: Id)
      requires Valid()
      modifies this, ring, favorites
      ensures Valid() && View() == Pinned(old(View()), id)
    {
      if favCount >= FAV_MAX { return; }
      var p := ClipFind(id);
      if !p.InRing? { return; }
      MoveToFavorites(p.i);
    }

    method ClipUnpin(id: Id)
      requires Valid()
      modifies this, ring, favorites
      ensures Valid() && View() == Unpinned(old(View()), id)
    {
      var p := ClipFind(id);
      if !p.InFavorites? { return; }
      var unpinned := favorites[p.i];
      ShiftDown(favorites, p.i, favCount);
      favCount := favCount - 1;
      ClipAdd(unpinned.text);
    }

    method ClipDelete(id: Id)
      requires Valid()
      modifies this, ring, favorites
      ensures Valid() && View() == Deleted(old(View()), id)
    {
      var p := ClipFind(id);
      match p
      case Nowhere =>
      case InFavorites(i) =>
        ShiftDown(favorites, i, favCount);
        favCount := favCount - 1;
      case InRing(i) =>
        ShiftDown(ring, i, ringCount);
        ringCount := ringCount - 1;
    }
  }
}
