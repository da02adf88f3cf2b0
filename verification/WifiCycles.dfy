/**
 What each input makes the WiFi worker do, said without its helpers: which network a connect
 cycle calls, when a wait ends, and what every other event changes and leaves alone.
 */
module WifiCycles {
  import opened Prelude
  import opened NvsStorage
  import opened ScanCandidates
  import opened EventBus
  import opened AppState
  import opened WifiFsm
  import opened WifiRuns

  // ---- What was heard --------------------------------------------------------------------------

  /** Scan results, read as the records they stand for. */
  function AsRecords(rs: seq<ScanResult>): (r: seq<ApRecord>)
    ensures |r| == |rs| && forall k :: 0 <= k < |r| ==> r[k] == ApRecord(rs[k].ssid, rs[k].rssi)
  {
    seq(|rs|, k requires 0 <= k < |rs| => ApRecord(rs[k].ssid, rs[k].rssi))
  }

  /** The strongest reading of an SSID, at least -127. */
  ghost function Strength(records: seq<ApRecord>, ssid: string): int {
    if records == [] then -127 else
      var last, best := records[|records| - 1], Strength(records[..|records| - 1], ssid);
      if last.ssid == ssid && last.rssi > best then last.rssi else best
  }

  lemma {:induction false} StrengthIsMaximal(records: seq<ApRecord>, ssid: string)
    ensures var best := Strength(records, ssid);
            && best >= -127
            && (forall k :: 0 <= k < |records| && records[k].ssid == ssid ==> records[k].rssi <= best)
            && (best > -127 ==> exists k :: 0 <= k < |records| && records[k].ssid == ssid && records[k].rssi == best)
  {
    if records != [] {
      var init := records[..|records| - 1];
      StrengthIsMaximal(init, ssid);
      var best := Strength(init, ssid);
      if Strength(records, ssid) > -127 {
        if best == Strength(records, ssid) {
          var k :| 0 <= k < |init| && init[k].ssid == ssid && init[k].rssi == best;
          assert records[k].ssid == ssid && records[k].rssi == best;
        } else {
          assert records[|records| - 1].ssid == ssid;
        }
      }
    }
  }

  /** The strength is the one reading that `IsStrength` allows. */
  lemma StrengthIsUnique(records: seq<ApRecord>, ssid: string, rssi: int)
    requires IsStrength(records, ssid, rssi)
    ensures rssi == Strength(records, ssid)
  {
    StrengthIsMaximal(records, ssid);
    if Heard(records, ssid) {
      var k :| 0 <= k < |records| && records[k].ssid == ssid
               && IsLoudest(records, ssid, records[k].rssi) && rssi == Max(NO_SIGNAL, records[k].rssi);
    }
  }

  /** Networks with the strength that was heard of each. */
  ghost function Rated(nets: seq<Network>, records: seq<ApRecord>): (cs: seq<Candidate>)
    ensures |cs| == |nets|
    ensures forall k :: 0 <= k < |cs| ==> cs[k] == Candidate(nets[k], Strength(records, nets[k].ssid))
  {
    seq(|nets|, k requires 0 <= k < |nets| => Candidate(nets[k], Strength(records, nets[k].ssid)))
  }

  lemma {:induction false} SignalIsStrength(rs: seq<ScanResult>, ssid: string)
    ensures Signal(rs, ssid) == Strength(AsRecords(rs), ssid)
    ensures Visible(rs, ssid) <==> Heard(AsRecords(rs), ssid)
  {
    if rs != [] {
      SignalIsStrength(rs[..|rs| - 1], ssid);
      assert AsRecords(rs)[..|rs| - 1] == AsRecords(rs[..|rs| - 1]);
    }
    if Visible(rs, ssid) {
      var j :| 0 <= j < |rs| && rs[j].ssid == ssid;
      assert AsRecords(rs)[j].ssid == ssid;
    }
    if Heard(AsRecords(rs), ssid) {
      var j :| 0 <= j < |rs| && AsRecords(rs)[j].ssid == ssid;
      assert rs[j].ssid == ssid;
    }
  }

  lemma {:induction false} UnheardIsWeakest(records: seq<ApRecord>, ssid: string)
    requires !Heard(records, ssid)
    ensures Strength(records, ssid) == -127
  {
    StrengthIsMaximal(records, ssid);
  }

  lemma RatedPush(nets: seq<Network>, n: Network, records: seq<ApRecord>)
    ensures Rated(nets + [n], records) == Rated(nets, records) + [Candidate(n, Strength(records, n.ssid))]
  {
  }

  /** The eligible networks of any results, rated by those results. */
  lemma {:induction false} EligibleIsRated(saved: seq<Network>, rs: seq<ScanResult>)
    ensures Eligible(saved, rs) == Rated(WantedOf(saved, rs), AsRecords(rs))
  {
    if saved != [] {
      var init, n := saved[..|saved| - 1], saved[|saved| - 1];
      EligibleIsRated(init, rs);
      SignalIsStrength(rs, n.ssid);
      if !Visible(rs, n.ssid) { UnheardIsWeakest(AsRecords(rs), n.ssid); }
      RatedPush(WantedOf(init, rs), n, AsRecords(rs));
      assert WantedOf(init, rs) + [] == WantedOf(init, rs);
    }
  }

  ghost function WantedOf(saved: seq<Network>, rs: seq<ScanResult>): seq<Network> {
    Wanted(saved, AsRecords(rs))
  }

  /** The records up to the one that brings the twentieth SSID, or all of them. */
  ghost function UpToTwenty(records: seq<ApRecord>): (r: seq<ApRecord>)
    ensures r <= records
  {
    if records == [] then [] else
      var init := records[..|records| - 1];
      if |SsidsOf(init)| < 20 then records else UpToTwenty(init)
  }

  lemma FewSsidsAreAllRead(records: seq<ApRecord>)
    requires |SsidsOf(records)| < 20
    ensures UpToTwenty(records) == records
  {
    if records != [] {
      assert SsidsOf(records) == SsidsOf(records[..|records| - 1]) + {records[|records| - 1].ssid};
    }
  }

  lemma {:induction false} DistinctResultsAre(rs: seq<ScanResult>, ssids: set<string>)
    requires OnePerSsid(rs)
    requires forall ssid :: ssid in ssids ==> ResultIndex(rs, ssid) < |rs|
    ensures |ssids| <= |rs|
  {
    if rs == [] {
      assert forall ssid :: ssid !in ssids;
    } else {
      var init, last := rs[..|rs| - 1], rs[|rs| - 1];
      var rest := ssids - {last.ssid};
      forall ssid | ssid in rest ensures ResultIndex(init, ssid) < |init| {
        assert rs[ResultIndex(rs, ssid)].ssid == ssid;
        assert init[ResultIndex(rs, ssid)].ssid == ssid;
      }
      DistinctResultsAre(init, rest);
      SubsetIsSmaller(ssids, rest + {last.ssid});
    }
  }

  lemma {:induction false} SubsetIsSmaller(a: set<string>, b: set<string>)
    requires a <= b
    ensures |a| <= |b|
  {
    assert b == a + (b - a);
  }

  /** The table has room exactly as long as fewer than twenty SSIDs were heard. */
  lemma RoomIsFewSsids(records: seq<ApRecord>, known: seq<Network>)
    ensures |ScanResults(records, known)| < 20 <==> |SsidsOf(records)| < 20
  {
    var rs := ScanResults(records, known);
    if |rs| < 20 {
      AllReadUnlessFull(records, known);
      ResultsSummarize(records, known);
      assert records[..|records|] == records;
      forall ssid | ssid in SsidsOf(records) ensures ResultIndex(rs, ssid) < |rs| {
        var k :| 0 <= k < |records| && records[k].ssid == ssid;
      }
      DistinctResultsAre(rs, SsidsOf(records));
    }
    if |SsidsOf(records)| < 20 {
      SmallScanLeavesRoom(records, known);
    }
  }

  lemma {:induction false} ReadIsUpToTwenty(records: seq<ApRecord>, known: seq<Network>)
    ensures records[..ReadBeforeFull(records, known)] == UpToTwenty(records)
  {
    if records != [] {
      var init := records[..|records| - 1];
      RoomIsFewSsids(init, known);
      if |ScanResults(init, known)| < 20 {
        assert records[..|records|] == records;
      } else {
        ReadIsUpToTwenty(init, known);
        assert records[..ReadBeforeFull(init, known)] == init[..ReadBeforeFull(init, known)];
      }
    }
  }

  /** The results of any scan summarize its records up to the twentieth SSID. */
  lemma ScanSummarizes(records: seq<ApRecord>, known: seq<Network>)
    ensures Summarizes(ScanResults(records, known), UpToTwenty(records), known)
  {
    ResultsSummarize(records, known);
    ReadIsUpToTwenty(records, known);
  }

  /** The eligible networks of any scan, rated by its raw records. */
  lemma ScanIsRated(saved: seq<Network>, known: seq<Network>, records: seq<ApRecord>)
    ensures var read := UpToTwenty(records);
            Eligible(saved, ScanResults(records, known)) == Rated(Wanted(saved, read), read)
  {
    var rs, read := ScanResults(records, known), UpToTwenty(records);
    var cs := Eligible(saved, rs);
    ScanSummarizes(records, known);
    forall ssid ensures Visible(rs, ssid) <==> Heard(read, ssid) {
      SummaryAnswers(rs, read, known, ssid);
    }
    EligibleIsWanted(saved, rs, read);
    EligibleStrength(saved, rs, read, known);
    forall k | 0 <= k < |cs| ensures cs[k] == Rated(Wanted(saved, read), read)[k] {
      assert cs[k] in cs && Nets(cs)[k] == cs[k].net;
      StrengthIsUnique(read, cs[k].net.ssid, cs[k].rssi);
    }
  }

  // ---- The best of what was heard ------------------------------------------------------------------

  /** `cs` is `xs` strongest first, equal readings in their order: there is only one such list. */
  ghost predicate IsRankingOf(cs: seq<Candidate>, xs: seq<Candidate>) {
    multiset(cs) == multiset(xs) && Descending(cs) && forall rssi :: AtRssi(cs, rssi) == AtRssi(xs, rssi)
  }

  /** Nothing is stronger than entry `k`, and nothing as strong comes before it. */
  predicate IsBest(xs: seq<Candidate>, k: int) {
    && 0 <= k < |xs|
    && (forall j :: 0 <= j < |xs| ==> xs[j].rssi <= xs[k].rssi)
    && (forall j :: 0 <= j < k ==> xs[j].rssi < xs[k].rssi)
  }

  lemma {:induction false} FirstAtRssi(cs: seq<Candidate>, rssi: int) returns (k: nat)
    requires AtRssi(cs, rssi) != []
    ensures k < |cs| && cs[k].rssi == rssi && AtRssi(cs, rssi)[0] == cs[k]
    ensures forall j :: 0 <= j < k ==> cs[j].rssi != rssi
  {
    var init := cs[..|cs| - 1];
    if AtRssi(init, rssi) != [] {
      k := FirstAtRssi(init, rssi);
    } else {
      k := |cs| - 1;
      forall j | 0 <= j < k ensures cs[j].rssi != rssi {
        if init[j].rssi == rssi { AtRssiMember(init, j); }
      }
    }
  }

  lemma FirstIsBest(cs: seq<Candidate>, xs: seq<Candidate>) returns (k: nat)
    requires IsRankingOf(cs, xs) && xs != []
    ensures cs != [] && IsBest(xs, k) && xs[k] == cs[0]
  {
    assert xs[0] in multiset(cs);
    var rssi := cs[0].rssi;
    AtRssiMember(cs, 0);
    assert AtRssi(cs, rssi) == AtRssi(xs, rssi) != [];
    var first := FirstAtRssi(cs, rssi);
    k := FirstAtRssi(xs, rssi);
    forall j | 0 <= j < |xs| ensures xs[j].rssi <= rssi {
      assert xs[j] in multiset(cs);
    }
  }

  // ---- A connect cycle ----------------------------------------------------------------------------------

  /** What a cycle goes by: the records its own scan read, or the results left from before. */
  ghost function Basis(s: State, scan: Scan): seq<ApRecord> {
    match scan
    case ScanFailed => AsRecords(s.scan.results)
    case Scanned(records) => UpToTwenty(Truncated(records, 32))
  }

  /** The candidates still in play. */
  function Live(s: State): seq<Candidate>
    requires Shape(s)
  {
    s.cand.slots[..s.cand.count]
  }

  /** What a scan leaves in the result table. */
  ghost predicate ScanOutcome(s: State, r: State, scan: Scan, known: seq<Network>) {
    && !r.scan.inProgress
    && (scan.ScanFailed? ==> r.scan.results == s.scan.results)
    && (scan.Scanned? ==> Summarizes(r.scan.results, UpToTwenty(Truncated(scan.records, 32)), known))
  }

  lemma ScansAreStored(s: State, scan: Scan, known: SavedList)
    requires Shape(s)
    ensures ScanOutcome(s, RunScan(s, scan, known), scan, known)
    ensures RunScan(s, scan, known) == s.(scan := RunScan(s, scan, known).scan)
  {
    if scan.Scanned? { ScanSummarizes(Truncated(scan.records, 32), known); }
  }

  /** The call to the first of the strongest, or none. */
  ghost predicate CallsBest(before: seq<Action>, after: seq<Action>, nets: seq<Network>, records: seq<ApRecord>) {
    if nets == [] then after == before
    else exists k :: IsBest(Rated(nets, records), k) && after == before + [Connect(0, Some(nets[k]))]
  }

  /** The candidates are `nets`, ranked by what was heard, with the first one up. */
  ghost predicate RanksAll(r: State, nets: seq<Network>, records: seq<ApRecord>) {
    && Shape(r) && r.cand.count == |nets| && r.cand.index == 0 && r.cand.attempt == 0
    && IsRankingOf(Live(r), Rated(nets, records))
  }

  /** Where a cycle goes: nothing but the state, the reason and the application state changes. */
  predicate Proceeds(s: State, r: State, none: bool) {
    && r.ctl == (if none then s.ctl.(fsm := RetryWait, reason := InitialFailed) else s.ctl.(fsm := Connecting))
    && r.shared == s.shared.(app := if none then WifiFailed else WifiConnecting)
    && r.store == s.store && r.trace.published == s.trace.published
  }

  /**
   What a connect cycle does: of the saved networks that were heard or are hidden it makes the
   candidates, ranked by what was heard, and calls the first of the strongest; without any it
   waits.
   */
  ghost predicate CycleOutcome(s: State, r: State, scan: Scan, loads: Loads) {
    var records := Basis(s, scan);
    var nets := Wanted(loads.saved, records);
    && ScanOutcome(s, r, scan, loads.known) && RanksAll(r, nets, records)
    && CallsBest(s.trace.actions, r.trace.actions, nets, records) && Proceeds(s, r, nets == [])
  }

  /** What the new results and the saved list make eligible, rated by what the cycle goes by. */
  lemma CycleIsRated(s: State, scan: Scan, loads: Loads)
    requires Shape(s)
    ensures var basis := Basis(s, scan);
            Eligible(loads.saved, RunScan(s, scan, loads.known).scan.results)
            == Rated(Wanted(loads.saved, basis), basis)
  {
    match scan
    case ScanFailed => EligibleIsRated(loads.saved, s.scan.results);
    case Scanned(records) => ScanIsRated(loads.saved, loads.known, Truncated(records, 32));
  }

  lemma PreparedRanks(s: State, scan: Scan, loads: Loads)
    requires Shape(s)
    ensures var c, basis := CyclePrepared(s, scan, loads), Basis(s, scan);
            && RanksAll(c, Wanted(loads.saved, basis), basis) && ScanOutcome(s, c, scan, loads.known)
            && c.ctl == s.ctl && c.store == s.store && c.trace == s.trace
            && c.shared == s.shared.(app := WifiConnecting)
  {
    var a := SetApp(s, WifiConnecting);
    ScansAreStored(a, scan, loads.known);
    CycleIsRated(a, scan, loads);
    var cs := Eligible(loads.saved, RunScan(a, scan, loads.known).scan.results);
    RankingSorts(cs);
    assert Live(CyclePrepared(s, scan, loads)) == Ranked(cs);
  }

  lemma CycleRanks(s: State, scan: Scan, loads: Loads)
    requires Shape(s)
    ensures CycleOutcome(s, StartCycle(s, scan, loads), scan, loads)
  {
    PreparedRanks(s, scan, loads);
    var basis := Basis(s, scan);
    var nets := Wanted(loads.saved, basis);
    var c := CyclePrepared(s, scan, loads);
    if nets != [] {
      var k := FirstIsBest(Live(c), Rated(nets, basis));
      assert Live(c)[0] == c.cand.slots[0];
    }
  }

  /** A timeout ends a retry wait: in IDLE without a stored network, in a new cycle with one. */
  lemma TimeoutExactly(s: State, scan: Scan, loads: Loads)
    requires Shape(s)
    ensures var r := Step(s, Timeout(scan, loads));
            if s.ctl.fsm != RetryWait then r == s
            else if loads.has then r.ctl.fsm != Idle && CycleOutcome(s, r, scan, loads)
            else r == s.(ctl := s.ctl.(fsm := Idle, nextWaitMs := 0))
  {
    CycleRanks(s, scan, loads);
  }

  /** A connect request starts a cycle at once, but needs a stored network in IDLE. */
  lemma ConnectRequestExactly(s: State, env: Env, loads: Loads)
    requires Shape(s)
    ensures var r := Step(s, Handle(ConnectRequest, env, loads));
            match s.ctl.fsm
            case Idle =>
              if loads.has then r.ctl.fsm != Idle && CycleOutcome(s, r, env.scan, loads)
              else r == s.(shared := s.shared.(app := NoWifi))
            case RetryWait => r.ctl.fsm != Idle && CycleOutcome(s, r, env.scan, loads)
            case _ => r == s
  {
    CycleRanks(s, env.scan, loads);
  }

  // ---- The other events -------------------------------------------------------------------------------

  /** `log` with the events of a flag that becomes `up`: its change if it changed, then the role. */
  function WithUplink(log: seq<EventType>, was: bool, up: bool): seq<EventType> {
    log + (if was == up then [] else if up then [WifiUp] else [WifiDown]) + [if up then UplinkUp else UplinkDown]
  }

  /** A loss while connected ends in a wait of one second, or in IDLE if nothing is stored. */
  lemma LossExactly(s: State, env: Env, loads: Loads)
    requires Timers(s) && s.ctl.fsm != Connecting
    ensures var r := Step(s, Handle(Disconnected, env, loads));
            if s.ctl.fsm != Connected then r == s else
              && r.trace == Trace(s.trace.actions, WithUplink(s.trace.published, s.shared.wifiConnected, false))
              && r.cand == s.cand && r.scan == s.scan && r.store == s.store
              && !r.shared.wifiConnected && r.shared.btConnected == s.shared.btConnected
              && (loads.has ==>
                    && r.ctl == Control(RetryWait, LostConnection, 2000, 1000)
                    && r.shared.app == (if s.shared.app == Bridge then BridgeNoWifi else s.shared.app))
              && (!loads.has ==>
                    && r.ctl == Control(Idle, s.ctl.reason, 1000, 0) && r.shared.app == NoWifi)
  {
  }

  /** A lost connection is tried again after one second. */
  lemma LossIsRetried(s: State, env: Env, loads: Loads, scan: Scan, later: Loads)
    requires Timers(s) && s.ctl.fsm == Connected && loads.has && later.has
    ensures var w := Step(s, Handle(Disconnected, env, loads));
            && WaitTicks(w) == Some(1000) && w.trace.actions == s.trace.actions
            && CycleOutcome(w, Step(w, Timeout(scan, later)), scan, later)
  {
    LossExactly(s, env, loads);
    TimeoutExactly(Step(s, Handle(Disconnected, env, loads)), scan, later);
  }

  /** An address connects, resets the backoff to one second and bridges if Bluetooth is connected. */
  lemma AddressExactly(s: State, env: Env, loads: Loads)
    requires Shape(s)
    ensures var r := Step(s, Handle(GotIp, env, loads));
            if s.ctl.fsm != Connecting then r == s else
              && r.ctl == Control(Connected, s.ctl.reason, 1000, 0)
              && r.shared == Shared(if s.shared.btConnected then Bridge else WaitBt, s.shared.btConnected, true)
              && r.trace == Trace(s.trace.actions, WithUplink(s.trace.published, s.shared.wifiConnected, true))
              && r.cand == s.cand && r.scan == s.scan && r.store == s.store
  {
  }

  /** A disconnect while connecting tries the same candidate again, then the next one, then waits 15 seconds. */
  lemma AttemptExactly(s: State, env: Env, loads: Loads)
    requires Bounds(s) && s.ctl.fsm == Connecting
    ensures var r := Step(s, Handle(Disconnected, env, loads));
            var next := if s.cand.attempt == 0 then s.cand.index else s.cand.index + 1;
            && r.scan == s.scan && r.store == s.store && r.trace.published == s.trace.published
            && r.cand.slots == s.cand.slots && r.cand.index == next && r.cand.attempt == 1 - s.cand.attempt
            && (next < s.cand.count ==>
                  && r.ctl == s.ctl && r.shared == s.shared && r.cand.count == s.cand.count
                  && r.trace.actions == s.trace.actions + [Connect(next, Some(Live(s)[next].net))])
            && (next >= s.cand.count ==>
                  && r.ctl == Control(RetryWait, InitialFailed, s.ctl.retryDelayMs, 15000)
                  && r.shared == s.shared.(app := WifiFailed) && r.cand.count == 0
                  && r.trace.actions == s.trace.actions)
  {
  }

  /** A scan request is carried out in IDLE and CONNECTED, and changes nothing but the results. */
  lemma ScanRequestExactly(s: State, env: Env, loads: Loads)
    requires Shape(s)
    ensures var r := Step(s, Handle(ScanRequest, env, loads));
            if s.ctl.fsm == Idle || s.ctl.fsm == Connected
            then r == s.(scan := r.scan) && ScanOutcome(s, r, env.scan, loads.known)
            else r == s
  {
    ScansAreStored(s, env.scan, loads.known);
  }

  /**
   A forget request erases the stored networks in every state. It drops the link unless it is
   already down in a retry wait, and ends in IDLE except while connected, where the
   disconnect that follows does that.
   */
  lemma ForgetExactly(s: State, env: Env, loads: Loads)
    requires Shape(s) && s.ctl.fsm != Recovering
    ensures var r := Step(s, Handle(ForgetRequest, env, loads));
            && r.store.count == (if env.countErased then None else s.store.count)
            && r.store.blob == (if env.blobErased then None else s.store.blob)
            && r.trace == Trace(s.trace.actions + (if s.ctl.fsm == RetryWait then [] else [Disconnect]), s.trace.published)
            && r.cand == s.cand && r.scan == s.scan
            && (s.ctl.fsm == Connected ==> r.ctl == s.ctl && r.shared == s.shared)
            && (s.ctl.fsm != Connected ==>
                  && r.ctl.fsm == Idle && r.shared == s.shared.(app := NoWifi)
                  && r.ctl.retryDelayMs == s.ctl.retryDelayMs && (Timers(s) ==> WaitTicks(r) == None))
  {
  }

  /** A recovery resets the driver and connects again, without a timer; it is ignored in IDLE and while connecting. */
  lemma RecoveryExactly(s: State, env: Env, loads: Loads)
    requires Shape(s) && s.ctl.fsm != Recovering
    ensures var r := Step(s, Handle(RecoveryRequest, env, loads));
            if s.ctl.fsm == Connected || s.ctl.fsm == RetryWait
            then r == s.(ctl := s.ctl.(fsm := Connecting, nextWaitMs := 0),
                         trace := s.trace.(actions := s.trace.actions + [SoftReset]))
            else r == s
  {
  }

  // ---- Every connect call ---------------------------------------------------------------------------------

  /** The inputs that start a connect cycle. */
  predicate StartsCycle(s: State, i: Input) {
    || (i.Timeout? && s.ctl.fsm == RetryWait && i.loads.has)
    || (i.Handle? && i.event == ConnectRequest
        && (s.ctl.fsm == RetryWait || (s.ctl.fsm == Idle && i.loads.has)))
  }

  function ScanOf(i: Input): Scan
    requires i.Timeout? || i.Handle?
  {
    if i.Timeout? then i.scan else i.env.scan
  }

  /** Candidates are left to try when this disconnect is handled. */
  predicate TriesOn(s: State, i: Input) {
    && i.Handle? && i.event == Disconnected && s.ctl.fsm == Connecting
    && (s.cand.attempt == 0 || s.cand.index + 1 < s.cand.count)
  }

  predicate Connects(s: State, i: Input)
    requires Shape(s)
  {
    |ConnectCalls(Step(s, i).trace.actions)| > |ConnectCalls(s.trace.actions)|
  }

  /** An input makes a connect call for one of the two reasons. */
  ghost predicate HasReason(s: State, i: Input)
    requires Shape(s)
  {
    (StartsCycle(s, i) && Wanted(i.loads.saved, Basis(s, ScanOf(i))) != []) || TriesOn(s, i)
  }

  /** At most a disconnect or a reset is added. */
  predicate AddsNoConnect(before: seq<Action>, after: seq<Action>) {
    after == before || after == before + [Disconnect] || after == before + [SoftReset]
  }

  lemma OthersAtRest(s: State, i: Input)
    requires Bounds(s) && AtRest(s) && !StartsCycle(s, i)
    ensures AddsNoConnect(s.trace.actions, Step(s, i).trace.actions)
  {
  }

  lemma OthersOnLink(s: State, i: Input)
    requires Bounds(s) && OnLink(s) && !TriesOn(s, i)
    ensures AddsNoConnect(s.trace.actions, Step(s, i).trace.actions)
  {
  }

  lemma OthersDoNotConnect(s: State, i: Input)
    requires Bounds(s) && !StartsCycle(s, i) && !TriesOn(s, i)
    ensures !Connects(s, i)
  {
    if AtRest(s) { OthersAtRest(s, i); } else { OthersOnLink(s, i); }
    ConnectCallsAppend(s.trace.actions, Disconnect);
    ConnectCallsAppend(s.trace.actions, SoftReset);
  }

  lemma CycleConnects(s: State, i: Input)
    requires Bounds(s) && StartsCycle(s, i)
    ensures Connects(s, i) <==> Wanted(i.loads.saved, Basis(s, ScanOf(i))) != []
  {
    var actions, basis := s.trace.actions, Basis(s, ScanOf(i));
    CyclesOnRequest(s, i);
    var nets := Wanted(i.loads.saved, basis);
    if nets != [] {
      var k :| IsBest(Rated(nets, basis), k) && Step(s, i).trace.actions == actions + [Connect(0, Some(nets[k]))];
      ConnectCallsAppend(actions, Connect(0, Some(nets[k])));
    }
  }

  /** Each of them runs a whole cycle: its own scan, then the candidates of that scan, then the call. */
  lemma CyclesOnRequest(s: State, i: Input)
    requires Shape(s) && StartsCycle(s, i)
    ensures CycleOutcome(s, Step(s, i), ScanOf(i), i.loads)
  {
    CycleRanks(s, ScanOf(i), i.loads);
  }

  /** A connect call is made exactly by a cycle with something to try, and by a disconnect with something left. */
  lemma ConnectsExactly(s: State, i: Input)
    requires Bounds(s)
    ensures Connects(s, i) <==> HasReason(s, i)
  {
    var actions := s.trace.actions;
    if StartsCycle(s, i) {
      CycleConnects(s, i);
    } else if TriesOn(s, i) {
      AttemptExactly(s, i.env, i.loads);
      var next := if s.cand.attempt == 0 then s.cand.index else s.cand.index + 1;
      ConnectCallsAppend(actions, Connect(next, Some(Live(s)[next].net)));
    } else {
      OthersDoNotConnect(s, i);
    }
  }

  /** How many inputs of a run had a reason. */
  ghost function Reasons(trace: seq<State>, ins: seq<Input>): nat
    requires IsRun(trace, ins)
  {
    if ins == [] then 0 else
      var n := |ins| - 1;
      Reasons(trace[..n + 1], ins[..n]) + (if HasReason(trace[n], ins[n]) then 1 else 0)
  }

  /** Over a run there are as many connect calls as reasons to make one: none is skipped, none repeated. */
  lemma {:induction false} ConnectsOverRuns(trace: seq<State>, ins: seq<Input>)
    requires IsRun(trace, ins) && Bounds(trace[0])
    requires forall k :: 0 <= k < |ins| ==> !RecoversAfterFailure(trace[k], ins[k])
    ensures |ConnectCalls(trace[|ins|].trace.actions)|
            == |ConnectCalls(trace[0].trace.actions)| + Reasons(trace, ins)
  {
    if ins != [] {
      var n := |ins| - 1;
      ConnectsOverRuns(trace[..n + 1], ins[..n]);
      BoundsAt(trace, ins, n);
      ConnectsExactly(trace[n], ins[n]);
      StepActsAtMostOnce(trace[n], ins[n]);
      var after := trace[n + 1].trace.actions;
      if after != trace[n].trace.actions {
        ConnectCallsAppend(trace[n].trace.actions, after[|after| - 1]);
      }
    }
  }
}
