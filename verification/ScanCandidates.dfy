/**
 The scanning helpers of `main/wifi_manager.c`: collapsing raw access-point records to one
 result per SSID, and turning results plus the saved list into a ranked candidate list.
 */
module ScanCandidates {
  import opened Prelude
  import opened NvsStorage

  const MAX_RESULTS: nat := 20
  const MAX_RECORDS: nat := 32
  const NO_SIGNAL: int := -127

  type Rssi = i: int | -128 <= i < 128

  datatype ApRecord = ApRecord(ssid: Ssid, rssi: Rssi)
  datatype ScanResult = ScanResult(ssid: Ssid, rssi: Rssi, saved: bool)
  datatype Candidate = Candidate(net: Network, rssi: int)

  // ---- Collapsing raw records -------------------------------------------------------

  function ResultSsid(r: ScanResult): string {
    r.ssid
  }

  /** The position of the result for an SSID, or the length if there is none. */
  function ResultIndex(rs: seq<ScanResult>, ssid: string): nat {
    IndexBy(ResultSsid, rs, ssid)
  }

  function Noted(rs: seq<ScanResult>, r: ApRecord, saved: seq<Network>): seq<ScanResult> {
    var j := ResultIndex(rs, r.ssid);
    if j < |rs| then rs[j := rs[j].(rssi := Max(rs[j].rssi, r.rssi))]
    else rs + [ScanResult(r.ssid, r.rssi, IndexOf(saved, r.ssid) < |saved|)]
  }

  /** The results of one scan; the loop ends early once the table is full. */
  function ScanResults(records: seq<ApRecord>, saved: seq<Network>): (rs: seq<ScanResult>)
    ensures |rs| <= MAX_RESULTS
  {
    if records == [] then [] else
      var rs := ScanResults(records[..|records| - 1], saved);
      if |rs| < MAX_RESULTS then Noted(rs, records[|records| - 1], saved) else rs
  }

  method FindResult(results: array<ScanResult>, count: nat, ssid: string) returns (j: nat)
    requires count <= results.Length
    ensures j == ResultIndex(results[..count], ssid)
  {
    j := 0;
    while j < count
      invariant 0 <= j <= count
      invariant forall k :: 0 <= k < j ==> results[k].ssid != ssid
    {
      if results[j].ssid == ssid {
        IndexByIs(ResultSsid, results[..count], ssid, j);
        return;
      }
      j := j + 1;
    }
  }

  method FindSaved(saved: seq<Network>, ssid: string) returns (found: bool)
    ensures found <==> IndexOf(saved, ssid) < |saved|
    ensures found <==> HasSsid(saved, ssid)
  {
    var k := 0;
    while k < |saved|
      invariant 0 <= k <= |saved|
      invariant forall n :: 0 <= n < k ==> saved[n].ssid != ssid
    {
      if saved[k].ssid == ssid {
        IndexByIs(NetworkSsid, saved, ssid, k);
        return true;
      }
      k := k + 1;
    }
    return false;
  }

  /** One iteration of the collapsing loop. */
  method NoteRecord(r: ApRecord, saved: seq<Network>, results: array<ScanResult>, count: nat)
    returns (count': nat)
    requires count < MAX_RESULTS == results.Length
    modifies results
    ensures count' <= MAX_RESULTS && results[..count'] == Noted(old(results[..count]), r, saved)
  {
    var j := FindResult(results, count, r.ssid);
    count' := count;
    if j < count {
      if r.rssi > results[j].rssi {
        results[j] := results[j].(rssi := r.rssi);
      }
    } else {
      var isSaved := FindSaved(saved, r.ssid);
      results[count] := ScanResult(r.ssid, r.rssi, isSaved);
      count' := count + 1;
      assert results[..count'] == results[..count] + [results[count]];
    }
  }

  lemma ScanResultsOfNext(records: seq<ApRecord>, i: nat, saved: seq<Network>)
    requires i < |records| && |ScanResults(records[..i], saved)| < MAX_RESULTS
    ensures ScanResults(records[..i + 1], saved) == Noted(ScanResults(records[..i], saved), records[i], saved)
  {
    assert records[..i + 1][..i] == records[..i];
  }

  /** One turn of the loop. */
  method NoteNext(records: seq<ApRecord>, i: nat, saved: seq<Network>, results: array<ScanResult>, count: nat)
    returns (count': nat)
    requires i < |records| && count < MAX_RESULTS == results.Length
    requires results[..count] == ScanResults(records[..i], saved)
    modifies results
    ensures count' <= MAX_RESULTS && results[..count'] == ScanResults(records[..i + 1], saved)
  {
    ScanResultsOfNext(records, i, saved);
    count' := NoteRecord(records[i], saved, results, count);
  }

  method StoreScanResults(records: seq<ApRecord>, saved: seq<Network>, results: array<ScanResult>)
    returns (count: nat)
    requires results.Length == MAX_RESULTS
    modifies results
    ensures count <= MAX_RESULTS && results[..count] == ScanResults(records, saved)
  {
    count := 0;
    var i := 0;
    while i < |records| && count < MAX_RESULTS
      invariant 0 <= i <= |records| && count <= MAX_RESULTS
      invariant results[..count] == ScanResults(records[..i], saved)
    {
      count := NoteNext(records, i, saved, results, count);
      i := i + 1;
    }
    assert |ScanResults(records[..i], saved)| == count;
    ResultsStopWhenFull(records, i, saved);
  }

  lemma {:induction false} ResultsStopWhenFull(records: seq<ApRecord>, i: nat, saved: seq<Network>)
    requires i <= |records|
    requires i == |records| || |ScanResults(records[..i], saved)| == MAX_RESULTS
    ensures ScanResults(records, saved) == ScanResults(records[..i], saved)
  {
    if i == |records| {
      assert records[..i] == records;
    } else {
      var init := records[..|records| - 1];
      assert init[..i] == records[..i];
      ResultsStopWhenFull(init, i, saved);
    }
  }

  // ---- What the results say about the raw records ----------------------------------------

  ghost predicate Heard(records: seq<ApRecord>, ssid: string) {
    exists k :: 0 <= k < |records| && records[k].ssid == ssid
  }

  ghost predicate IsLoudest(records: seq<ApRecord>, ssid: string, rssi: int) {
    && (exists k :: 0 <= k < |records| && records[k].ssid == ssid && records[k].rssi == rssi)
    && (forall k :: 0 <= k < |records| && records[k].ssid == ssid ==> records[k].rssi <= rssi)
  }

  ghost predicate OnePerSsid(rs: seq<ScanResult>) {
    forall i, j :: 0 <= i < j < |rs| ==> rs[i].ssid != rs[j].ssid
  }

  ghost predicate AllLoudest(rs: seq<ScanResult>, records: seq<ApRecord>) {
    forall i :: 0 <= i < |rs| ==> IsLoudest(records, rs[i].ssid, rs[i].rssi)
  }

  ghost predicate SavedMarked(rs: seq<ScanResult>, saved: seq<Network>) {
    forall i :: 0 <= i < |rs| ==> (rs[i].saved <==> HasSsid(saved, rs[i].ssid))
  }

  ghost predicate NoneMissing(rs: seq<ScanResult>, records: seq<ApRecord>) {
    forall k :: 0 <= k < |records| ==> ResultIndex(rs, records[k].ssid) < |rs|
  }

  /** One result per SSID heard, with its loudest reading and whether it is saved. */
  ghost predicate Summarizes(rs: seq<ScanResult>, records: seq<ApRecord>, saved: seq<Network>) {
    OnePerSsid(rs) && AllLoudest(rs, records) && SavedMarked(rs, saved) && NoneMissing(rs, records)
  }

  lemma LoudestOfMore(records: seq<ApRecord>, r: ApRecord, ssid: string, rssi: int)
    requires IsLoudest(records, ssid, rssi)
    ensures IsLoudest(records + [r], ssid, if r.ssid == ssid then Max(rssi, r.rssi) else rssi)
  {
    var all := records + [r];
    var k :| 0 <= k < |records| && records[k].ssid == ssid && records[k].rssi == rssi;
    assert all[k] == records[k] && all[|records|] == r;
  }

  lemma LoudestOfFirst(rs: seq<ScanResult>, records: seq<ApRecord>, r: ApRecord)
    requires NoneMissing(rs, records) && ResultIndex(rs, r.ssid) == |rs|
    ensures IsLoudest(records + [r], r.ssid, r.rssi)
  {
    forall k | 0 <= k < |records| ensures records[k].ssid != r.ssid {
      var n := ResultIndex(rs, records[k].ssid);
      assert rs[n].ssid == records[k].ssid;
    }
    assert (records + [r])[|records|] == r;
  }

  lemma NotedIsFound(rs: seq<ScanResult>, r: ApRecord, saved: seq<Network>, ssid: string)
    requires ResultIndex(rs, ssid) < |rs| || ssid == r.ssid
    ensures ResultIndex(Noted(rs, r, saved), ssid) < |Noted(rs, r, saved)|
  {
    var rs', j, n := Noted(rs, r, saved), ResultIndex(rs, r.ssid), ResultIndex(rs, ssid);
    assert rs'[if n < |rs| then n else j].ssid == ssid;
  }

  lemma NotedMissesNone(rs: seq<ScanResult>, records: seq<ApRecord>, r: ApRecord, saved: seq<Network>)
    requires NoneMissing(rs, records)
    ensures NoneMissing(Noted(rs, r, saved), records + [r])
  {
    var all := records + [r];
    forall k | 0 <= k < |all| ensures ResultIndex(Noted(rs, r, saved), all[k].ssid) < |Noted(rs, r, saved)| {
      NotedIsFound(rs, r, saved, all[k].ssid);
    }
  }

  lemma NotedStaysLoudest(rs: seq<ScanResult>, records: seq<ApRecord>, r: ApRecord, saved: seq<Network>)
    requires OnePerSsid(rs) && AllLoudest(rs, records) && NoneMissing(rs, records)
    ensures AllLoudest(Noted(rs, r, saved), records + [r])
  {
    var rs' := Noted(rs, r, saved);
    forall i | 0 <= i < |rs'| ensures IsLoudest(records + [r], rs'[i].ssid, rs'[i].rssi) {
      if i < |rs| {
        LoudestOfMore(records, r, rs[i].ssid, rs[i].rssi);
      } else {
        LoudestOfFirst(rs, records, r);
      }
    }
  }

  lemma NotedMarksSaved(rs: seq<ScanResult>, r: ApRecord, saved: seq<Network>)
    requires OnePerSsid(rs) && SavedMarked(rs, saved)
    ensures OnePerSsid(Noted(rs, r, saved)) && SavedMarked(Noted(rs, r, saved), saved)
  {
    assert HasSsid(saved, r.ssid) <==> IndexOf(saved, r.ssid) < |saved|;
  }

  lemma NotedSummarizes(rs: seq<ScanResult>, records: seq<ApRecord>, r: ApRecord, saved: seq<Network>)
    requires Summarizes(rs, records, saved)
    ensures Summarizes(Noted(rs, r, saved), records + [r], saved)
  {
    NotedMissesNone(rs, records, r, saved);
    NotedStaysLoudest(rs, records, r, saved);
    NotedMarksSaved(rs, r, saved);
  }

  /** How many records the collapsing loop reads. */
  ghost function ReadBeforeFull(records: seq<ApRecord>, saved: seq<Network>): (n: nat)
    ensures n <= |records|
  {
    if records == [] then 0 else
      var init := records[..|records| - 1];
      if |ScanResults(init, saved)| < MAX_RESULTS then |records| else ReadBeforeFull(init, saved)
  }

  lemma {:induction false} AllReadUnlessFull(records: seq<ApRecord>, saved: seq<Network>)
    ensures |ScanResults(records, saved)| < MAX_RESULTS ==> ReadBeforeFull(records, saved) == |records|
  {
    if records != [] && |ScanResults(records[..|records| - 1], saved)| == MAX_RESULTS {
      assert ScanResults(records, saved) == ScanResults(records[..|records| - 1], saved);
    }
  }

  lemma ReadWithRoom(records: seq<ApRecord>, saved: seq<Network>)
    requires records != [] && |ScanResults(records[..|records| - 1], saved)| < MAX_RESULTS
    ensures var init, last := records[..|records| - 1], records[|records| - 1];
            && init[..ReadBeforeFull(init, saved)] == init
            && records[..ReadBeforeFull(records, saved)] == init + [last]
            && ScanResults(records, saved) == Noted(ScanResults(init, saved), last, saved)
  {
    AllReadUnlessFull(records[..|records| - 1], saved);
  }

  lemma ReadWhenFull(records: seq<ApRecord>, saved: seq<Network>)
    requires records != [] && |ScanResults(records[..|records| - 1], saved)| == MAX_RESULTS
    ensures var init := records[..|records| - 1];
            && records[..ReadBeforeFull(records, saved)] == init[..ReadBeforeFull(init, saved)]
            && ScanResults(records, saved) == ScanResults(init, saved)
  {
  }

  /** Up to the record that fills the table, the results summarize everything heard. */
  lemma {:induction false} ResultsSummarize(records: seq<ApRecord>, saved: seq<Network>)
    ensures Summarizes(ScanResults(records, saved), records[..ReadBeforeFull(records, saved)], saved)
  {
    if records != [] {
      var init, last := records[..|records| - 1], records[|records| - 1];
      ResultsSummarize(init, saved);
      if |ScanResults(init, saved)| < MAX_RESULTS {
        ReadWithRoom(records, saved);
        NotedSummarizes(ScanResults(init, saved), init, last, saved);
      } else {
        ReadWhenFull(records, saved);
      }
    }
  }

  ghost function SsidsOf(records: seq<ApRecord>): set<string> {
    set k | 0 <= k < |records| :: records[k].ssid
  }

  lemma {:induction false} DistinctResultsCount(rs: seq<ScanResult>, ssids: set<string>)
    requires forall i, j :: 0 <= i < j < |rs| ==> rs[i].ssid != rs[j].ssid
    requires forall i :: 0 <= i < |rs| ==> rs[i].ssid in ssids
    ensures |rs| <= |ssids|
  {
    if rs != [] {
      var last := |rs| - 1;
      DistinctResultsCount(rs[..last], ssids - {rs[last].ssid});
    }
  }

  lemma SmallScanLeavesRoom(records: seq<ApRecord>, saved: seq<Network>)
    requires |SsidsOf(records)| < 20
    ensures |ScanResults(records, saved)| < MAX_RESULTS
  {
    ResultsSummarize(records, saved);
    var rs := ScanResults(records, saved);
    var n := ReadBeforeFull(records, saved);
    forall i | 0 <= i < |rs| ensures rs[i].ssid in SsidsOf(records) {
      assert IsLoudest(records[..n], rs[i].ssid, rs[i].rssi);
      var k :| 0 <= k < |records[..n]| && records[..n][k].ssid == rs[i].ssid;
      assert records[k].ssid == rs[i].ssid;
    }
    DistinctResultsCount(rs, SsidsOf(records));
  }

  /** With fewer than 20 different SSIDs in the air, the results summarize the whole scan. */
  lemma ResultsSummarizeSmallScan(records: seq<ApRecord>, saved: seq<Network>)
    requires |SsidsOf(records)| < 20
    ensures Summarizes(ScanResults(records, saved), records, saved)
  {
    SmallScanLeavesRoom(records, saved);
    ResultsSummarize(records, saved);
    AllReadUnlessFull(records, saved);
    assert records[..|records|] == records;
  }

  /** The record changes nothing, or there is room to note it. */
  predicate Notable(rs: seq<ScanResult>, r: ApRecord) {
    var j := ResultIndex(rs, r.ssid);
    |rs| < 20 || (j < |rs| && r.rssi <= rs[j].rssi)
  }

  lemma UnnotedIsLost(rs: seq<ScanResult>, records: seq<ApRecord>, r: ApRecord, saved: seq<Network>)
    requires !Notable(rs, r)
    ensures !Summarizes(rs, records + [r], saved)
  {
    var all, j := records + [r], ResultIndex(rs, r.ssid);
    assert all[|records|] == r;
    if j < |rs| { assert !IsLoudest(all, rs[j].ssid, rs[j].rssi); }
  }

  /**
   A full table ends the loop, so a later record is lost exactly when it would have added
   an SSID or raised a reading.
   */
  lemma LaterRecordIsSummarizedExactly(records: seq<ApRecord>, r: ApRecord, saved: seq<Network>)
    requires Summarizes(ScanResults(records, saved), records, saved)
    ensures Summarizes(ScanResults(records + [r], saved), records + [r], saved)
            <==> Notable(ScanResults(records, saved), r)
  {
    var rs, all := ScanResults(records, saved), records + [r];
    assert all[..|all| - 1] == records && all[|records|] == r;
    NotedSummarizes(rs, records, r, saved);
    if Notable(rs, r) {
      if |rs| == MAX_RESULTS { assert Noted(rs, r, saved) == rs; }
    } else {
      UnnotedIsLost(rs, records, r, saved);
    }
  }

  // ---- Ranking candidates -----------------------------------------------------------------

  /** The best reading for `ssid`, never below -127. */
  function Signal(rs: seq<ScanResult>, ssid: string): int {
    if rs == [] then NO_SIGNAL else
      var last := rs[|rs| - 1];
      var best := Signal(rs[..|rs| - 1], ssid);
      if last.ssid == ssid && last.rssi > best then last.rssi else best
  }

  predicate Visible(rs: seq<ScanResult>, ssid: string) {
    exists j :: 0 <= j < |rs| && rs[j].ssid == ssid
  }

  /** The candidates with one more saved network, if it is worth trying. */
  function Considered(cs: seq<Candidate>, n: Network, rs: seq<ScanResult>): (r: seq<Candidate>)
    ensures |cs| <= |r| <= |cs| + 1
  {
    if Visible(rs, n.ssid) || n.hidden then
      cs + [Candidate(n, if Visible(rs, n.ssid) then Signal(rs, n.ssid) else NO_SIGNAL)]
    else cs
  }

  /** Saved networks worth trying, in saved order. */
  function Eligible(saved: seq<Network>, rs: seq<ScanResult>): (cs: seq<Candidate>)
    ensures |cs| <= |saved|
  {
    if saved == [] then [] else Considered(Eligible(saved[..|saved| - 1], rs), saved[|saved| - 1], rs)
  }

  function Insert(cs: seq<Candidate>, c: Candidate): (r: seq<Candidate>)
    ensures |r| == |cs| + 1
  {
    if cs != [] && cs[|cs| - 1].rssi < c.rssi then
      Insert(cs[..|cs| - 1], c) + [cs[|cs| - 1]]
    else cs + [c]
  }

  function Ranked(cs: seq<Candidate>): (r: seq<Candidate>)
    ensures |r| == |cs|
  {
    if cs == [] then [] else Insert(Ranked(cs[..|cs| - 1]), cs[|cs| - 1])
  }

  function Candidates(saved: seq<Network>, rs: seq<ScanResult>): (r: seq<Candidate>)
    ensures |r| <= |saved|
  {
    Ranked(Eligible(saved, rs))
  }

  lemma {:induction false} InsertPosition(cs: seq<Candidate>, c: Candidate, p: nat)
    requires p <= |cs|
    requires p > 0 ==> cs[p - 1].rssi >= c.rssi
    requires forall k :: p <= k < |cs| ==> cs[k].rssi < c.rssi
    ensures Insert(cs, c) == cs[..p] + [c] + cs[p..]
  {
    if p < |cs| {
      InsertPosition(cs[..|cs| - 1], c, p);
      assert cs[..|cs| - 1][..p] == cs[..p];
      assert cs[p..] == cs[..|cs| - 1][p..] + [cs[|cs| - 1]];
    } else {
      assert cs[..p] == cs;
    }
  }

  /** The two parallel arrays, read as one list of pairs. */
  ghost function Zip(list: seq<Network>, rssi: seq<int>): (cs: seq<Candidate>)
    requires |list| == |rssi|
    ensures |cs| == |list|
    ensures forall k :: 0 <= k < |cs| ==> cs[k] == Candidate(list[k], rssi[k])
  {
    seq(|list|, k requires 0 <= k < |list| && |list| == |rssi| => Candidate(list[k], rssi[k]))
  }

  lemma ReadOneMore(results: seq<ScanResult>, j: nat, ssid: string)
    requires j < |results|
    ensures Visible(results[..j + 1], ssid) <==> Visible(results[..j], ssid) || results[j].ssid == ssid
    ensures var best := Signal(results[..j], ssid);
            Signal(results[..j + 1], ssid)
            == if results[j].ssid == ssid && results[j].rssi > best then results[j].rssi else best
  {
    var upTo := results[..j + 1];
    assert upTo[..j] == results[..j] && upTo[j] == results[j];
    if Visible(results[..j], ssid) {
      var k :| 0 <= k < j && results[..j][k].ssid == ssid;
      assert upTo[k].ssid == ssid;
    }
    if Visible(upTo, ssid) && results[j].ssid != ssid {
      var k :| 0 <= k < |upTo| && upTo[k].ssid == ssid;
      assert results[..j][k].ssid == ssid;
    }
  }

  /** The loop over the scan results for one saved network. */
  method FindSignal(results: seq<ScanResult>, ssid: string) returns (visible: bool, best: int)
    ensures visible <==> Visible(results, ssid)
    ensures best == Signal(results, ssid)
  {
    best, visible := NO_SIGNAL, false;
    var j := 0;
    while j < |results|
      invariant 0 <= j <= |results|
      invariant visible <==> Visible(results[..j], ssid)
      invariant best == Signal(results[..j], ssid)
    {
      ReadOneMore(results, j, ssid);
      if ssid == results[j].ssid {
        visible := true;
        if results[j].rssi > best { best := results[j].rssi; }
      }
      j := j + 1;
    }
    assert results[..j] == results;
  }

  /** One turn of the outer loop; both arrays get their entry at the same position. */
  method Consider(net: Network, results: seq<ScanResult>, list: array<Network>, rssi: array<int>, count: nat)
    returns (count': nat)
    requires count < list.Length == rssi.Length
    modifies list, rssi
    ensures count <= count' <= count + 1
    ensures Zip(list[..count'], rssi[..count']) == Considered(Zip(old(list[..count]), old(rssi[..count])), net, results)
    ensures forall k :: count' <= k < list.Length ==> list[k] == old(list[k]) && rssi[k] == old(rssi[k])
  {
    var visible, best := FindSignal(results, net.ssid);
    count' := count;
    if visible || net.hidden {
      list[count] := net;
      rssi[count] := if visible then best else NO_SIGNAL;
      count' := count + 1;
    }
  }

  lemma EligibleOfNext(saved: seq<Network>, i: nat, rs: seq<ScanResult>)
    requires i < |saved|
    ensures Eligible(saved[..i + 1], rs) == Considered(Eligible(saved[..i], rs), saved[i], rs)
  {
    assert saved[..i + 1][..i] == saved[..i];
  }

  method CollectCandidates(saved: seq<Network>, results: seq<ScanResult>,
                           list: array<Network>, rssi: array<int>) returns (count: nat)
    requires |saved| <= MAX_SAVED == list.Length == rssi.Length
    modifies list, rssi
    ensures count <= MAX_SAVED && Zip(list[..count], rssi[..count]) == Eligible(saved, results)
    ensures forall k :: count <= k < MAX_SAVED ==> list[k] == old(list[k]) && rssi[k] == old(rssi[k])
  {
    count := 0;
    var i := 0;
    while i < |saved|
      invariant 0 <= i <= |saved| && count <= i
      invariant Zip(list[..count], rssi[..count]) == Eligible(saved[..i], results)
      invariant forall k :: count <= k < MAX_SAVED ==> list[k] == old(list[k]) && rssi[k] == old(rssi[k])
    {
      EligibleOfNext(saved, i, results);
      count := Consider(saved[i], results, list, rssi, count);
      i := i + 1;
    }
    assert saved[..i] == saved;
  }

  /** The inner loop: moves entries weaker than entry `i` up by one, and says where it stopped. */
  method ShiftWeaker(list: array<Network>, rssi: array<int>, i: nat) returns (p: nat)
    requires i < list.Length == rssi.Length
    modifies list, rssi
    ensures p <= i && (p > 0 ==> old(rssi[p - 1]) >= old(rssi[i]))
    ensures forall k :: 0 <= k < list.Length && (k < p || i < k) ==> list[k] == old(list[k]) && rssi[k] == old(rssi[k])
    ensures forall k :: p < k <= i ==> list[k] == old(list[k - 1]) && rssi[k] == old(rssi[k - 1])
    ensures forall k :: p < k <= i ==> rssi[k] < old(rssi[i])
  {
    var keyRssi := rssi[i];
    var j := i - 1;
    while j >= 0 && rssi[j] < keyRssi
      invariant -1 <= j < i
      invariant forall k :: 0 <= k < list.Length && (k <= j || i < k) ==> list[k] == old(list[k]) && rssi[k] == old(rssi[k])
      invariant forall k :: j + 1 < k <= i ==> list[k] == old(list[k - 1]) && rssi[k] == old(rssi[k - 1])
      invariant forall k :: j + 1 < k <= i ==> rssi[k] < keyRssi
    {
      list[j + 1] := list[j];
      rssi[j + 1] := rssi[j];
      j := j - 1;
    }
    p := j + 1;
  }

  /** One pass of the sort: sinks entry `i` into the ranked entries before it. */
  method SinkEntry(list: array<Network>, rssi: array<int>, i: nat)
    requires i < list.Length == rssi.Length
    modifies list, rssi
    ensures Zip(list[..i + 1], rssi[..i + 1])
            == Insert(Zip(old(list[..i]), old(rssi[..i])), Candidate(old(list[i]), old(rssi[i])))
    ensures forall k :: i < k < list.Length ==> list[k] == old(list[k]) && rssi[k] == old(rssi[k])
  {
    ghost var nets, readings, ranked := list[..i + 1], rssi[..i + 1], Zip(list[..i], rssi[..i]);
    var keyNet, keyRssi := list[i], rssi[i];
    var p := ShiftWeaker(list, rssi, i);
    list[p] := keyNet;
    rssi[p] := keyRssi;
    ShiftInserts(nets, readings, ranked, list[..i + 1], rssi[..i + 1], p);
  }

  /** What one pass leaves in the arrays is what `Insert` says. */
  lemma ShiftInserts(nets: seq<Network>, readings: seq<int>, ranked: seq<Candidate>,
                     list: seq<Network>, rssi: seq<int>, p: nat)
    requires p < |nets| == |readings| == |list| == |rssi| == |ranked| + 1
    requires forall k :: 0 <= k < |ranked| ==> ranked[k] == Candidate(nets[k], readings[k])
    requires list[p] == nets[|ranked|] && rssi[p] == readings[|ranked|]
    requires forall k :: 0 <= k < p ==> list[k] == nets[k] && rssi[k] == readings[k]
    requires forall k :: p < k < |nets| ==> list[k] == nets[k - 1] && rssi[k] == readings[k - 1]
    requires p > 0 ==> readings[p - 1] >= readings[|ranked|]
    requires forall k :: p < k < |nets| ==> rssi[k] < readings[|ranked|]
    ensures Zip(list, rssi) == Insert(ranked, Candidate(nets[|ranked|], readings[|ranked|]))
  {
    var c := Candidate(nets[|ranked|], readings[|ranked|]);
    forall k | p <= k < |ranked| ensures ranked[k].rssi < c.rssi {
      assert rssi[k + 1] == readings[k];
    }
    InsertPosition(ranked, c, p);
    ZipOfShifted(ranked, c, list, rssi, p);
  }

  lemma ZipOfShifted(ranked: seq<Candidate>, c: Candidate, list: seq<Network>, rssi: seq<int>, p: nat)
    requires p <= |ranked| && |list| == |rssi| == |ranked| + 1
    requires Candidate(list[p], rssi[p]) == c
    requires forall k :: 0 <= k < p ==> Candidate(list[k], rssi[k]) == ranked[k]
    requires forall k :: p < k <= |ranked| ==> Candidate(list[k], rssi[k]) == ranked[k - 1]
    ensures Zip(list, rssi) == ranked[..p] + [c] + ranked[p..]
  {
  }

  lemma RankedOfNext(cs: seq<Candidate>, i: nat)
    requires i < |cs|
    ensures Ranked(cs[..i + 1]) == Insert(Ranked(cs[..i]), cs[i])
  {
    assert cs[..i + 1][..i] == cs[..i];
  }

  /** Insertion sort by descending RSSI, moving both arrays together. */
  method SortCandidates(list: array<Network>, rssi: array<int>, count: nat)
    requires count <= list.Length == rssi.Length
    modifies list, rssi
    ensures Zip(list[..count], rssi[..count]) == Ranked(Zip(old(list[..count]), old(rssi[..count])))
    ensures forall k :: count <= k < list.Length ==> list[k] == old(list[k]) && rssi[k] == old(rssi[k])
  {
    ghost var start := Zip(list[..count], rssi[..count]);
    if count == 0 { return; }
    RankedOfNext(start, 0);
    var i := 1;
    while i < count
      invariant 1 <= i <= count
      invariant Zip(list[..i], rssi[..i]) == Ranked(start[..i])
      invariant forall k :: i <= k < list.Length ==> list[k] == old(list[k]) && rssi[k] == old(rssi[k])
    {
      RankedOfNext(start, i);
      SinkEntry(list, rssi, i);
      i := i + 1;
    }
    assert start[..count] == start;
  }

  method BuildCandidateList(saved: seq<Network>, results: seq<ScanResult>,
                            list: array<Network>, rssi: array<int>) returns (count: nat)
    requires |saved| <= MAX_SAVED == list.Length == rssi.Length
    modifies list, rssi
    ensures count <= MAX_SAVED && Zip(list[..count], rssi[..count]) == Candidates(saved, results)
    ensures forall k :: count <= k < MAX_SAVED ==> list[k] == old(list[k]) && rssi[k] == old(rssi[k])
  {
    count := CollectCandidates(saved, results, list, rssi);
    SortCandidates(list, rssi, count);
  }

  // ---- What the ranking means ----------------------------------------------------------------

  predicate Descending(cs: seq<Candidate>) {
    forall i, j :: 0 <= i <= j < |cs| ==> cs[i].rssi >= cs[j].rssi
  }

  /** The candidates with one signal strength, in order. */
  function AtRssi(cs: seq<Candidate>, rssi: int): seq<Candidate> {
    if cs == [] then [] else
      AtRssi(cs[..|cs| - 1], rssi) + (if cs[|cs| - 1].rssi == rssi then [cs[|cs| - 1]] else [])
  }

  lemma {:induction false} InsertKeepsMembers(cs: seq<Candidate>, c: Candidate)
    ensures multiset(Insert(cs, c)) == multiset(cs) + multiset{c}
  {
    if cs != [] && cs[|cs| - 1].rssi < c.rssi {
      InsertKeepsMembers(cs[..|cs| - 1], c);
      assert cs == cs[..|cs| - 1] + [cs[|cs| - 1]];
    }
  }

  lemma InsertStaysAbove(cs: seq<Candidate>, c: Candidate, rssi: int)
    requires c.rssi >= rssi && forall k :: 0 <= k < |cs| ==> cs[k].rssi >= rssi
    ensures forall k :: 0 <= k < |Insert(cs, c)| ==> Insert(cs, c)[k].rssi >= rssi
  {
    InsertKeepsMembers(cs, c);
    forall k | 0 <= k < |Insert(cs, c)| ensures Insert(cs, c)[k].rssi >= rssi {
      assert Insert(cs, c)[k] in multiset(Insert(cs, c));
    }
  }

  lemma PushKeepsRank(cs: seq<Candidate>, last: Candidate)
    requires Descending(cs) && forall k :: 0 <= k < |cs| ==> cs[k].rssi >= last.rssi
    ensures Descending(cs + [last])
  {
  }

  lemma {:induction false} InsertKeepsRank(cs: seq<Candidate>, c: Candidate)
    requires Descending(cs)
    ensures Descending(Insert(cs, c))
  {
    if cs != [] && cs[|cs| - 1].rssi < c.rssi {
      var init, last := cs[..|cs| - 1], cs[|cs| - 1];
      InsertKeepsRank(init, c);
      InsertStaysAbove(init, c, last.rssi);
      PushKeepsRank(Insert(init, c), last);
    } else {
      assert forall k :: 0 <= k < |cs| ==> cs[k].rssi >= cs[|cs| - 1].rssi;
      PushKeepsRank(cs, c);
    }
  }

  lemma {:induction false} InsertIsStable(cs: seq<Candidate>, c: Candidate, rssi: int)
    ensures AtRssi(Insert(cs, c), rssi) == AtRssi(cs, rssi) + (if c.rssi == rssi then [c] else [])
  {
    if cs != [] && cs[|cs| - 1].rssi < c.rssi {
      var init, last := cs[..|cs| - 1], cs[|cs| - 1];
      InsertIsStable(init, c, rssi);
      assert Insert(cs, c)[..|cs|] == Insert(init, c);
      if last.rssi == rssi { assert NothingAbove(init, c, rssi); }
    } else {
      assert (cs + [c])[..|cs|] == cs;
    }
  }

  ghost predicate NothingAbove(cs: seq<Candidate>, c: Candidate, rssi: int) {
    rssi < c.rssi ==> AtRssi(Insert(cs, c), rssi) == AtRssi(cs, rssi)
  }

  lemma {:induction false} RankingSorts(cs: seq<Candidate>)
    ensures Descending(Ranked(cs)) && multiset(Ranked(cs)) == multiset(cs)
    ensures forall rssi :: AtRssi(Ranked(cs), rssi) == AtRssi(cs, rssi)
  {
    if cs != [] {
      var init, last := cs[..|cs| - 1], cs[|cs| - 1];
      RankingSorts(init);
      InsertKeepsRank(Ranked(init), last);
      InsertKeepsMembers(Ranked(init), last);
      assert cs == init + [last];
      forall rssi ensures AtRssi(Ranked(cs), rssi) == AtRssi(cs, rssi) {
        InsertIsStable(Ranked(init), last, rssi);
      }
    }
  }

  lemma {:induction false} AtRssiMember(cs: seq<Candidate>, k: nat)
    requires k < |cs|
    ensures cs[k] in AtRssi(cs, cs[k].rssi)
  {
    if k < |cs| - 1 {
      AtRssiMember(cs[..|cs| - 1], k);
    }
  }

  lemma {:induction false} AtRssiOnly(cs: seq<Candidate>, rssi: int)
    ensures forall c :: c in AtRssi(cs, rssi) ==> c in cs && c.rssi == rssi
  {
    if cs != [] {
      AtRssiOnly(cs[..|cs| - 1], rssi);
    }
  }

  lemma LastAtItsRssi(a: seq<Candidate>)
    requires a != []
    ensures var l := a[|a| - 1]; AtRssi(a, l.rssi) != [] && AtRssi(a, l.rssi)[|AtRssi(a, l.rssi)| - 1] == l
  {
  }

  /** If the last candidate of `a` also occurs in a descending `b`, the last one of `b` is no stronger. */
  lemma LastIsWeakest(a: seq<Candidate>, b: seq<Candidate>)
    requires Descending(b) && a != []
    requires AtRssi(a, a[|a| - 1].rssi) == AtRssi(b, a[|a| - 1].rssi)
    ensures b != [] && b[|b| - 1].rssi <= a[|a| - 1].rssi
  {
    LastAtItsRssi(a);
    var la := a[|a| - 1];
    AtRssiOnly(b, la.rssi);
    var at := AtRssi(b, la.rssi);
    assert at[|at| - 1] in at;
    var k :| 0 <= k < |b| && b[k] == la;
  }

  lemma LastIsDetermined(a: seq<Candidate>, b: seq<Candidate>)
    requires Descending(a) && Descending(b) && a != []
    requires forall rssi :: AtRssi(a, rssi) == AtRssi(b, rssi)
    ensures b != [] && a[|a| - 1] == b[|b| - 1]
  {
    var la := a[|a| - 1];
    assert AtRssi(a, la.rssi) == AtRssi(b, la.rssi);
    LastIsWeakest(a, b);
    var lb := b[|b| - 1];
    assert AtRssi(a, lb.rssi) == AtRssi(b, lb.rssi);
    LastIsWeakest(b, a);
    LastAtItsRssi(a);
    LastAtItsRssi(b);
  }

  lemma AtRssiOfInit(a: seq<Candidate>, b: seq<Candidate>, rssi: int)
    requires a != [] && b != [] && a[|a| - 1] == b[|b| - 1]
    requires AtRssi(a, rssi) == AtRssi(b, rssi)
    ensures AtRssi(a[..|a| - 1], rssi) == AtRssi(b[..|b| - 1], rssi)
  {
    var tail := if a[|a| - 1].rssi == rssi then [a[|a| - 1]] else [];
    var x, y := AtRssi(a[..|a| - 1], rssi), AtRssi(b[..|b| - 1], rssi);
    assert x + tail == y + tail;
    assert |x| == |y|;
    assert x == (x + tail)[..|x|] && y == (y + tail)[..|y|];
  }

  /** Strongest first with ties in saved order leaves no choice: the ranking is unique. */
  lemma {:induction false} RankingIsUnique(a: seq<Candidate>, b: seq<Candidate>)
    requires Descending(a) && Descending(b)
    requires forall rssi :: AtRssi(a, rssi) == AtRssi(b, rssi)
    ensures a == b
  {
    if a == [] && b == [] {
    } else if a == [] {
      LastIsDetermined(b, a);
    } else {
      LastIsDetermined(a, b);
      var ha, hb := a[..|a| - 1], b[..|b| - 1];
      forall rssi ensures AtRssi(ha, rssi) == AtRssi(hb, rssi) {
        AtRssiOfInit(a, b, rssi);
      }
      RankingIsUnique(ha, hb);
      assert a == ha + [a[|a| - 1]] && b == hb + [b[|b| - 1]];
    }
  }

  // ---- From raw records to candidates ----------------------------------------------------------

  /** The saved networks that were heard or are hidden, in saved order. */
  ghost function Wanted(saved: seq<Network>, records: seq<ApRecord>): seq<Network> {
    if saved == [] then [] else
      var n := saved[|saved| - 1];
      Wanted(saved[..|saved| - 1], records) + (if Heard(records, n.ssid) || n.hidden then [n] else [])
  }

  ghost function Nets(cs: seq<Candidate>): (l: seq<Network>)
    ensures |l| == |cs| && forall k :: 0 <= k < |l| ==> l[k] == cs[k].net
  {
    seq(|cs|, k requires 0 <= k < |cs| => cs[k].net)
  }

  /** The larger of -127 and the strongest raw reading of the SSID, or -127 if it was not heard. */
  ghost predicate IsStrength(records: seq<ApRecord>, ssid: string, rssi: int) {
    if Heard(records, ssid)
    then exists k :: 0 <= k < |records| && records[k].ssid == ssid
                     && IsLoudest(records, ssid, records[k].rssi) && rssi == Max(-127, records[k].rssi)
    else rssi == -127
  }

  lemma {:induction false} SignalOfDistinct(rs: seq<ScanResult>, j: nat)
    requires forall i, k :: 0 <= i < k < |rs| ==> rs[i].ssid != rs[k].ssid
    requires j < |rs|
    ensures Signal(rs, rs[j].ssid) == Max(NO_SIGNAL, rs[j].rssi)
  {
    var init := rs[..|rs| - 1];
    if j < |rs| - 1 {
      SignalOfDistinct(init, j);
    } else {
      SignalOfAbsent(init, rs[j].ssid);
    }
  }

  lemma {:induction false} SignalOfAbsent(rs: seq<ScanResult>, ssid: string)
    requires forall i :: 0 <= i < |rs| ==> rs[i].ssid != ssid
    ensures Signal(rs, ssid) == NO_SIGNAL
  {
    if rs != [] {
      SignalOfAbsent(rs[..|rs| - 1], ssid);
    }
  }

  /** One saved network against a summary of the scan. */
  lemma SummaryAnswers(rs: seq<ScanResult>, records: seq<ApRecord>, saved: seq<Network>, ssid: string)
    requires Summarizes(rs, records, saved)
    ensures Visible(rs, ssid) <==> Heard(records, ssid)
    ensures IsStrength(records, ssid, if Visible(rs, ssid) then Signal(rs, ssid) else NO_SIGNAL)
  {
    if Visible(rs, ssid) {
      var j :| 0 <= j < |rs| && rs[j].ssid == ssid;
      SignalOfDistinct(rs, j);
      assert IsLoudest(records, ssid, rs[j].rssi);
    }
    if Heard(records, ssid) {
      var k :| 0 <= k < |records| && records[k].ssid == ssid;
      assert rs[ResultIndex(rs, records[k].ssid)].ssid == ssid;
    }
  }

  lemma NetsPush(cs: seq<Candidate>, c: Candidate)
    ensures Nets(cs + [c]) == Nets(cs) + [c.net]
  {
  }

  lemma {:induction false} EligibleIsWanted(saved: seq<Network>, rs: seq<ScanResult>, records: seq<ApRecord>)
    requires forall ssid :: Visible(rs, ssid) <==> Heard(records, ssid)
    ensures Nets(Eligible(saved, rs)) == Wanted(saved, records)
  {
    if saved != [] {
      var init, n := saved[..|saved| - 1], saved[|saved| - 1];
      EligibleIsWanted(init, rs, records);
      NetsPush(Eligible(init, rs), Candidate(n, if Visible(rs, n.ssid) then Signal(rs, n.ssid) else NO_SIGNAL));
    }
  }

  lemma {:induction false} EligibleStrength(saved: seq<Network>, rs: seq<ScanResult>,
                                            records: seq<ApRecord>, known: seq<Network>)
    requires Summarizes(rs, records, known)
    ensures forall c :: c in Eligible(saved, rs) ==> IsStrength(records, c.net.ssid, c.rssi)
  {
    if saved != [] {
      EligibleStrength(saved[..|saved| - 1], rs, records, known);
      SummaryAnswers(rs, records, known, saved[|saved| - 1].ssid);
    }
  }

  /**
   A small scan and any saved list give as candidates exactly the saved networks that were
   heard or are hidden, each once, each with its strongest raw reading (at least -127),
   strongest first and ties in saved order. The list is loaded again after the scan: `known`
   is the one its results were marked with.
   */
  lemma CandidatesOfSmallScan(saved: seq<Network>, known: seq<Network>, records: seq<ApRecord>)
    requires |SsidsOf(records)| < 20
    ensures var inOrder := Eligible(saved, ScanResults(records, known));
            var cs := Candidates(saved, ScanResults(records, known));
            && Nets(inOrder) == Wanted(saved, records)
            && multiset(cs) == multiset(inOrder)
            && Descending(cs)
            && (forall rssi :: AtRssi(cs, rssi) == AtRssi(inOrder, rssi))
            && (forall c :: c in cs ==> IsStrength(records, c.net.ssid, c.rssi))
  {
    var rs := ScanResults(records, known);
    ResultsSummarizeSmallScan(records, known);
    forall ssid ensures Visible(rs, ssid) <==> Heard(records, ssid) {
      SummaryAnswers(rs, records, known, ssid);
    }
    EligibleIsWanted(saved, rs, records);
    EligibleStrength(saved, rs, records, known);
    var inOrder := Eligible(saved, rs);
    RankingSorts(inOrder);
    forall c | c in Ranked(inOrder) ensures c in inOrder {
      assert c in multiset(Ranked(inOrder));
    }
  }

  // ---- The order of the results -----------------------------------------------------------------

  ghost function Ssids(rs: seq<ScanResult>): (l: seq<string>)
    ensures |l| == |rs| && forall k :: 0 <= k < |l| ==> l[k] == rs[k].ssid
  {
    seq(|rs|, k requires 0 <= k < |rs| => ResultSsid(rs[k]))
  }

  /** The SSIDs of the records, each where it was heard first. */
  ghost function InOrderHeard(records: seq<ApRecord>): seq<string> {
    if records == [] then [] else
      var before, ssid := InOrderHeard(records[..|records| - 1]), records[|records| - 1].ssid;
      if ssid in before then before else before + [ssid]
  }

  lemma NotedSsids(rs: seq<ScanResult>, r: ApRecord, saved: seq<Network>)
    ensures Ssids(Noted(rs, r, saved)) == if r.ssid in Ssids(rs) then Ssids(rs) else Ssids(rs) + [r.ssid]
  {
    var j := ResultIndex(rs, r.ssid);
    if j < |rs| { assert Ssids(rs)[j] == r.ssid; }
  }

  /** The results are the first twenty SSIDs, in the order in which they were first heard. */
  lemma {:induction false} ResultsInOrder(records: seq<ApRecord>, saved: seq<Network>)
    ensures Ssids(ScanResults(records, saved)) == Truncated(InOrderHeard(records), 20)
  {
    if records != [] {
      var init, last := records[..|records| - 1], records[|records| - 1];
      ResultsInOrder(init, saved);
      NotedSsids(ScanResults(init, saved), last, saved);
    }
  }
}
