/**
 The saved-network list of `main/nvs_storage.c`, kept in a key-value store under two keys:
 a one-byte count and a blob of whole network records.

 A C string is modelled by its characters before the NUL, so `strcmp(a, b) == 0` is `a == b`.
 */
module NvsStorage {
  import opened Prelude

  const MAX_SAVED: nat := 6
  const SSID_MAX: nat := 32
  const PASS_MAX: nat := 63

  /** What fits the fields `char ssid[33]` and `char pass[64]`. */
  type Ssid = s: string | |s| <= SSID_MAX
  type Pass = s: string | |s| <= PASS_MAX

  datatype Network = Network(ssid: Ssid, pass: Pass, hidden: bool)

  type SavedList = l: seq<Network> | |l| <= MAX_SAVED

  /** The contents of the two keys. */
  datatype Store = Store(count: Option<Byte>, blob: Option<seq<Network>>)

  /** Which of the writes of one save reach the store. */
  datatype Writes = Writes(count: bool, blob: bool, erase: bool)

  const ALL_WRITES := Writes(true, true, true)

  // ---- What a load reads back -------------------------------------------------

  function StoredCount(st: Store): nat {
    if st.count.None? then 0 else Min(st.count.value, MAX_SAVED)
  }

  /** `nvs_get_blob` refuses a buffer smaller than the stored blob. */
  predicate BlobReadable(st: Store) {
    st.blob.Some? && |st.blob.value| <= StoredCount(st)
  }

  function LoadedCount(st: Store): nat {
    if StoredCount(st) > 0 && !BlobReadable(st) then 0 else StoredCount(st)
  }

  /** A load never returns records that the blob does not hold. */
  predicate Coherent(st: Store) {
    LoadedCount(st) > 0 ==> |st.blob.value| == LoadedCount(st)
  }

  function Loaded(st: Store): (l: seq<Network>)
    requires Coherent(st)
    ensures |l| == LoadedCount(st) <= MAX_SAVED
  {
    if LoadedCount(st) == 0 then [] else st.blob.value
  }

  /** What a load may return: the blob, and arbitrary records behind it if the count says more. */
  predicate ReadsAs(st: Store, l: seq<Network>) {
    |l| == LoadedCount(st) && (l != [] ==> st.blob.value <= l)
  }

  lemma CoherentReadsAs(st: Store, l: seq<Network>)
    requires Coherent(st)
    ensures ReadsAs(st, l) <==> l == Loaded(st)
  {
  }

  /** One of the lists that a load may return. */
  function SomeRead(st: Store): (l: SavedList)
    ensures ReadsAs(st, l)
  {
    if LoadedCount(st) == 0 then [] else
      st.blob.value + seq(LoadedCount(st) - |st.blob.value|, _ => Network("", "", false))
  }

  // ---- The operations as functions ---------------------------------------------

  /** The first write of a save. */
  function CountPut(st: Store, n: nat, ok: bool): Store
    requires n <= MAX_SAVED
  {
    if ok then st.(count := Some(n)) else st
  }

  /** The second write of a save: the records, or an erase if there are none. */
  function BlobPut(st: Store, l: seq<Network>, ok: bool): Store {
    if ok then st.(blob := if |l| > 0 then Some(l) else None) else st
  }

  function Saved(st: Store, l: seq<Network>, w: Writes): Store
    requires |l| <= MAX_SAVED
  {
    BlobPut(CountPut(st, |l|, w.count), l, if |l| > 0 then w.blob else w.erase)
  }

  function SaveReports(l: seq<Network>, w: Writes): bool {
    w.count && (|l| > 0 ==> w.blob)
  }

  function NetworkSsid(n: Network): string {
    n.ssid
  }

  /** The position of the network with an SSID, or the length if there is none. */
  function IndexOf(l: seq<Network>, ssid: string): nat {
    IndexBy(NetworkSsid, l, ssid)
  }

  /** The list after adding, or `None` when there is no room. */
  function Added(l: seq<Network>, ssid: string, pass: string, hidden: bool): (r: Option<seq<Network>>)
    requires |l| <= MAX_SAVED
    ensures r.Some? ==> |l| <= |r.value| <= MAX_SAVED
  {
    var i := IndexOf(l, ssid);
    if i < |l| then
      Some(l[i := l[i].(pass := Truncated(pass, PASS_MAX), hidden := hidden)])
    else if |l| == MAX_SAVED then
      None
    else
      Some(l + [Network(Truncated(ssid, SSID_MAX), Truncated(pass, PASS_MAX), hidden)])
  }

  function Erased(st: Store, countGone: bool, blobGone: bool): Store {
    Store(if countGone then None else st.count, if blobGone then None else st.blob)
  }

  // ---- The module's state and its operations ------------------------------------

  class NvsStore {
    var count: Option<Byte>
    var blob: Option<seq<Network>>

    ghost function View(): Store
      reads this
    {
      Store(count, blob)
    }

    constructor ()
      ensures View() == Store(None, None)
    {
      count, blob := None, None;
    }

    /** `storage_get_blob`: on success fills a prefix of the buffer. */
    method GetBlob(out: array<Network>, len: nat) returns (ok: bool)
      requires len <= out.Length
      modifies out
      ensures ok <==> blob.Some? && |blob.value| <= len
      ensures ok ==> out[..] == blob.value + old(out[..])[|blob.value|..]
      ensures !ok ==> out[..] == old(out[..])
    {
      ok := blob.Some? && |blob.value| <= len;
      if ok {
        var i := 0;
        while i < |blob.value|
          invariant 0 <= i <= |blob.value| <= out.Length
          invariant forall k :: 0 <= k < i ==> out[k] == blob.value[k]
          invariant forall k :: i <= k < out.Length ==> out[k] == old(out[k])
        {
          out[i] := blob.value[i];
          i := i + 1;
        }
      }
    }

    /** Always reads into a full-size local buffer, whose contents start out arbitrary. */
    method LoadNetworks(out: array<Network>, maxCount: int) returns (n: int, ghost read: seq<Network>)
      requires maxCount <= out.Length
      modifies out
      ensures ReadsAs(View(), read) && n == Min(|read|, maxCount)
      ensures forall i :: 0 <= i < out.Length && i >= n ==> out[i] == old(out[i])
      ensures 0 <= n ==> out[..n] == read[..n]
    {
      read := [];
      if count.None? {
        return Min(0, maxCount), [];
      }
      var c: nat := Min(count.value, MAX_SAVED);
      var full := new Network[MAX_SAVED];
      if c > 0 {
        var ok := GetBlob(full, c);
        if !ok {
          return Min(0, maxCount), [];
        }
      }
      read := full[..c];
      n := c;
      if n > maxCount { n := maxCount; }
      var i := 0;
      while i < n
        invariant 0 <= i <= Max(n, 0)
        invariant full[..c] == read
        invariant forall k :: 0 <= k < i ==> out[k] == read[k]
        invariant forall k :: i <= k < out.Length ==> out[k] == old(out[k])
      {
        out[i] := full[i];
        i := i + 1;
      }
    }

    method SaveNetworks(list: array<Network>, n: int, w: Writes) returns (ok: bool)
      requires Min(n, MAX_SAVED) <= list.Length
      modifies this
      ensures var l := list[..Max(0, Min(n, MAX_SAVED))];
              View() == Saved(old(View()), l, w) && ok == SaveReports(l, w)
    {
      var c := n;
      if c < 0 { c := 0; }
      if c > MAX_SAVED { c := MAX_SAVED; }
      ok := w.count;
      if w.count { count := Some(c); }
      if c > 0 {
        ok := w.blob && ok;
        if w.blob { blob := Some(list[..c]); }
      } else {
        if w.erase { blob := None; }
      }
    }

    method AddNetwork(ssid: string, pass: string, hidden: bool, w: Writes)
      returns (ok: bool, ghost read: seq<Network>)
      modifies this
      ensures ReadsAs(old(View()), read)
      ensures match Added(read, ssid, pass, hidden)
              case None => !ok && View() == old(View())
              case Some(l) => View() == Saved(old(View()), l, w) && ok == SaveReports(l, w)
    {
      var list := new Network[MAX_SAVED];
      var n;
      n, read := LoadNetworks(list, MAX_SAVED);
      assert list[..n] == read;
      var i := 0;
      while i < n
        invariant 0 <= i <= n
        invariant forall k :: 0 <= k < i ==> list[k].ssid != ssid
      {
        if list[i].ssid == ssid {
          IndexByIs(NetworkSsid, read, ssid, i);
          list[i] := list[i].(pass := Truncated(pass, PASS_MAX), hidden := hidden);
          assert list[..n] == read[i := read[i].(pass := Truncated(pass, PASS_MAX), hidden := hidden)];
          ok := SaveNetworks(list, n, w);
          return;
        }
        i := i + 1;
      }
      IndexByIs(NetworkSsid, read, ssid, n);
      if n >= MAX_SAVED { return false, read; }
      list[n] := Network(Truncated(ssid, SSID_MAX), Truncated(pass, PASS_MAX), hidden);
      assert list[..n + 1] == read + [list[n]];
      ok := SaveNetworks(list, n + 1, w);
    }

    /** The loop that moves the entries behind `at` one place forward. */
    method CloseGap(list: array<Network>, at: nat, n: nat)
      requires at < n <= list.Length
      modifies list
      ensures list[..n - 1] == RemoveAt(old(list[..n]), at)
    {
      var i := at;
      while i < n - 1
        invariant at <= i <= n - 1
        invariant forall k :: at <= k < i ==> list[k] == old(list[k + 1])
        invariant forall k :: 0 <= k < n && !(at <= k < i) ==> list[k] == old(list[k])
      {
        list[i] := list[i + 1];
        i := i + 1;
      }
    }

    method RemoveNetwork(index: int, w: Writes) returns (ok: bool, ghost read: seq<Network>)
      modifies this
      ensures ReadsAs(old(View()), read)
      ensures if 0 <= index < |read| then
                View() == Saved(old(View()), RemoveAt(read, index), w) && ok == SaveReports(RemoveAt(read, index), w)
              else
                !ok && View() == old(View())
    {
      var list := new Network[MAX_SAVED];
      var n;
      n, read := LoadNetworks(list, MAX_SAVED);
      assert list[..n] == read;
      if index < 0 || index >= n { return false, read; }
      CloseGap(list, index, n);
      ok := SaveNetworks(list, n - 1, w);
    }

    method ClearNetworks(countGone: bool, blobGone: bool)
      modifies this
      ensures View() == Erased(old(View()), countGone, blobGone)
    {
      if countGone { count := None; }
      if blobGone { blob := None; }
    }
  }

  // ---- Reading back what was saved ------------------------------------------------

  /** A save that reports success is read back exactly, whatever became of an erase. */
  lemma LoadAfterSave(st: Store, l: seq<Network>, w: Writes)
    requires |l| <= MAX_SAVED && SaveReports(l, w)
    ensures Coherent(Saved(st, l, w)) && Loaded(Saved(st, l, w)) == l
  {
  }

  /**
   What a caller has to look at before a save that may fail: which write is at risk, the new
   size, and what the two keys hold.
   */
  predicate FailsHarmlessly(st: Store, l: seq<Network>, w: Writes) {
    || l == [] || (!w.count && !w.blob)
    || (!w.count && (StoredCount(st) == 0 || |l| == StoredCount(st) || (|l| > StoredCount(st) && LoadedCount(st) == 0)))
    || (w.count && (|| st.blob.None?
                    || (|st.blob.value| > |l| && LoadedCount(st) == 0)
                    || (|st.blob.value| == |l| && (LoadedCount(st) > 0 || st.blob.value == l))))
  }

  /** After a failed save the store reads as the old list or as the new one exactly then. */
  lemma FailedSaveReadsOldOrNew(st: Store, l: seq<Network>, w: Writes)
    requires |l| <= MAX_SAVED && Coherent(st) && !SaveReports(l, w)
    ensures var after := Saved(st, l, w);
            (Coherent(after) && (Loaded(after) == Loaded(st) || Loaded(after) == l)) <==> FailsHarmlessly(st, l, w)
  {
    var after := Saved(st, l, w);
    if l != [] && w.count {
      assert StoredCount(after) == |l| && after.blob == st.blob;
    } else if l != [] && w.blob {
      assert after == Store(st.count, Some(l));
    }
  }

  /** A save whose writes all reach the store reports success; an empty list leaves a count of 0 and no blob. */
  lemma WholeSaveSucceeds(st: Store, l: seq<Network>)
    requires |l| <= MAX_SAVED
    ensures SaveReports(l, ALL_WRITES)
    ensures Saved(st, l, ALL_WRITES) == Store(Some(|l|), if l == [] then None else Some(l))
  {
  }

  /**
   A network that was forgotten while its blob could not be erased comes back when a later add
   writes the count but not the blob.
   */
  lemma ForgottenNetworkReturns(gone: Network, ssid: string, pass: string, hidden: bool, erase: bool)
    requires gone.ssid != Truncated(ssid, SSID_MAX)
    ensures var forgotten := Erased(Store(Some(1), Some([gone])), true, false);
            && Coherent(forgotten) && Loaded(forgotten) == []
            && Added([], ssid, pass, hidden).Some?
            && var l := Added([], ssid, pass, hidden).value;
               var after := Saved(forgotten, l, Writes(true, false, erase));
               Coherent(after) && Loaded(after) == [gone] != l
  {
    assert Added([], ssid, pass, hidden).value[0].ssid == Truncated(ssid, SSID_MAX);
  }

  /** Between the two writes of a save that makes the list longer, a load reads beyond the records. */
  lemma GrowingSaveIsTorn(st: Store, l: seq<Network>)
    requires Coherent(st) && 0 < |Loaded(st)| < |l| <= MAX_SAVED
    ensures !Coherent(CountPut(st, |l|, true))
    ensures Coherent(BlobPut(CountPut(st, |l|, true), l, true))
  {
  }

  // ---- The list as an ordered map ---------------------------------------------------

  predicate UniqueSsids(l: seq<Network>) {
    forall i, j :: 0 <= i < j < |l| ==> l[i].ssid != l[j].ssid
  }

  predicate HasSsid(l: seq<Network>, ssid: string) {
    exists k :: 0 <= k < |l| && l[k].ssid == ssid
  }

  function Lookup(l: seq<Network>, ssid: string): Option<(Pass, bool)> {
    var i := IndexOf(l, ssid);
    if i < |l| then Some((l[i].pass, l[i].hidden)) else None
  }

  /** The search compares the whole SSID, the append keeps 32 bytes of it. */
  lemma AddKeepsUniqueExactly(l: seq<Network>, ssid: string, pass: string, hidden: bool)
    requires |l| <= MAX_SAVED && UniqueSsids(l)
    requires Added(l, ssid, pass, hidden).Some?
    ensures UniqueSsids(Added(l, ssid, pass, hidden).value)
            <==> |ssid| <= SSID_MAX || !HasSsid(l, Truncated(ssid, SSID_MAX))
  {
    var r := Added(l, ssid, pass, hidden).value;
    if IndexOf(l, ssid) == |l| {
      if HasSsid(l, Truncated(ssid, SSID_MAX)) {
        var k :| 0 <= k < |l| && l[k].ssid == Truncated(ssid, SSID_MAX);
        assert r[k].ssid == r[|l|].ssid;
      }
    }
  }

  /** Adding binds the SSID, touches no other binding, and keeps the order. */
  lemma AddIsMapUpdate(l: seq<Network>, ssid: string, pass: string, hidden: bool, other: string)
    requires |l| <= MAX_SAVED && UniqueSsids(l) && |ssid| <= SSID_MAX
    requires Added(l, ssid, pass, hidden).Some?
    ensures var r := Added(l, ssid, pass, hidden).value;
            && Lookup(r, ssid) == Some((Truncated(pass, PASS_MAX), hidden))
            && (other != ssid ==> Lookup(r, other) == Lookup(l, other))
            && |r| == (if HasSsid(l, ssid) then |l| else |l| + 1)
            && forall k :: 0 <= k < |l| ==> r[k].ssid == l[k].ssid
  {
    var r := Added(l, ssid, pass, hidden).value;
    var i := IndexOf(l, ssid);
    IndexByIs(NetworkSsid, r, ssid, i);
    var j := IndexOf(l, other);
    if other != ssid {
      if j < |l| {
        IndexByIs(NetworkSsid, r, other, j);
      } else {
        assert forall k :: 0 <= k < |r| ==> r[k].ssid != other;
      }
    }
  }

  /** An add is refused exactly if six networks are stored and none has the SSID. */
  lemma AddRefusedExactly(l: seq<Network>, ssid: string, pass: string, hidden: bool)
    requires |l| <= MAX_SAVED
    ensures Added(l, ssid, pass, hidden) == None <==> |l| == 6 && !HasSsid(l, ssid)
  {
    var i := IndexOf(l, ssid);
    if i < |l| { assert l[i].ssid == ssid; }
  }

  lemma OthersStayBound(l: seq<Network>, index: nat, other: string)
    requires index < |l| && other != l[index].ssid
    ensures Lookup(RemoveAt(l, index), other) == Lookup(l, other)
  {
    var r, j := RemoveAt(l, index), IndexOf(l, other);
    var j' := if j < index then j else j - 1;
    if j < |l| { assert r[j'] == l[j]; }
    forall k | 0 <= k < j' && k < |r| ensures r[k].ssid != other {
      assert l[if k < index then k else k + 1].ssid != other;
    }
    IndexByIs(NetworkSsid, r, other, j');
  }

  lemma RemovedIsUnbound(l: seq<Network>, index: nat)
    requires index < |l| && UniqueSsids(l)
    ensures Lookup(RemoveAt(l, index), l[index].ssid) == None && UniqueSsids(RemoveAt(l, index))
  {
    assert forall k :: 0 <= k < |l| && k != index ==> l[k].ssid != l[index].ssid;
    IndexByIs(NetworkSsid, RemoveAt(l, index), l[index].ssid, |l| - 1);
  }

  lemma RemoveIsMapDelete(l: seq<Network>, index: nat, other: string)
    requires index < |l| && UniqueSsids(l)
    ensures Lookup(RemoveAt(l, index), l[index].ssid) == None
    ensures other != l[index].ssid ==> Lookup(RemoveAt(l, index), other) == Lookup(l, other)
    ensures UniqueSsids(RemoveAt(l, index))
  {
    RemovedIsUnbound(l, index);
    if other != l[index].ssid { OthersStayBound(l, index, other); }
  }

  // ---- Whole histories of edits -------------------------------------------------------

  datatype Edit =
    | Add(ssid: string, pass: string, hidden: bool)
    | Remove(index: int)
    | Clear

  /** What an add or a remove saves, given the list it read; `None` if it gives up. */
  function ToSave(read: seq<Network>, e: Edit): (r: Option<seq<Network>>)
    requires |read| <= MAX_SAVED && !e.Clear?
    ensures r.Some? ==> |r.value| <= MAX_SAVED
  {
    match e
    case Add(ssid, pass, hidden) => Added(read, ssid, pass, hidden)
    case Remove(index) => if 0 <= index < |read| then Some(RemoveAt(read, index)) else None
  }

  function EditedList(l: seq<Network>, e: Edit): seq<Network>
    requires |l| <= MAX_SAVED
  {
    if e.Clear? then [] else (match ToSave(l, e) case None => l case Some(r) => r)
  }

  /** The same edit on the two keys, with every write reaching the store. */
  function EditedStore(st: Store, e: Edit): Store
    requires Coherent(st)
  {
    if e.Clear? then Erased(st, true, true)
    else (match ToSave(Loaded(st), e) case None => st case Some(r) => Saved(st, r, ALL_WRITES))
  }

  predicate ShortSsid(e: Edit) {
    e.Add? ==> |e.ssid| <= SSID_MAX
  }

  lemma EditRefinesList(st: Store, e: Edit)
    requires Coherent(st) && UniqueSsids(Loaded(st)) && ShortSsid(e)
    ensures Coherent(EditedStore(st, e)) && Loaded(EditedStore(st, e)) == EditedList(Loaded(st), e)
    ensures UniqueSsids(EditedList(Loaded(st), e))
  {
    var l := Loaded(st);
    match e
    case Add(ssid, pass, hidden) =>
      if Added(l, ssid, pass, hidden).Some? {
        AddKeepsUniqueExactly(l, ssid, pass, hidden);
        LoadAfterSave(st, Added(l, ssid, pass, hidden).value, ALL_WRITES);
      }
    case Remove(index) =>
      if 0 <= index < |l| {
        RemoveIsMapDelete(l, index, "");
        LoadAfterSave(st, RemoveAt(l, index), ALL_WRITES);
      }
    case Clear =>
  }

  /** `l` edited in turn by `es`. */
  function ListAfter(l: seq<Network>, es: seq<Edit>): (r: seq<Network>)
    requires |l| <= MAX_SAVED
    ensures |r| <= MAX_SAVED
  {
    if es == [] then l else EditedList(ListAfter(l, es[..|es| - 1]), es[|es| - 1])
  }

  /** `st` edited in turn by `es`; nothing happens to a store that cannot be read back. */
  function StoreAfter(st: Store, es: seq<Edit>): Store {
    if es == [] then st else
      var before := StoreAfter(st, es[..|es| - 1]);
      if Coherent(before) then EditedStore(before, es[|es| - 1]) else before
  }

  /**
   Over every history of edits the two keys stand for one list: of at most six networks,
   with distinct SSIDs, and equal to the list edited directly.
   */
  lemma {:induction false} StoreRefinesList(st: Store, es: seq<Edit>)
    requires Coherent(st) && UniqueSsids(Loaded(st))
    requires forall k :: 0 <= k < |es| ==> ShortSsid(es[k])
    ensures Coherent(StoreAfter(st, es))
    ensures Loaded(StoreAfter(st, es)) == ListAfter(Loaded(st), es)
    ensures UniqueSsids(ListAfter(Loaded(st), es))
  {
    if es != [] {
      StoreRefinesList(st, es[..|es| - 1]);
      EditRefinesList(StoreAfter(st, es[..|es| - 1]), es[|es| - 1]);
    }
  }
}
