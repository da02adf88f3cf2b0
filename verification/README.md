# Satura Bridge: protocol proofs

Satura Bridge is ESP32 firmware that shares a WiFi uplink with a phone over Bluetooth PAN. This
project models the parts of it that keep state over time, and proves what they keep.

| module | what it covers |
|---|---|
| `NvsStorage` | the saved-network list in two flash keys, as an ordered bounded map |
| `ScanCandidates` | collapsing scan records, choosing candidates, the in-place sort of two parallel arrays |
| `WifiFsm`, `WifiRuns`, `WifiManager` | the WiFi worker: its step function, what whole runs keep whatever is stored, and the imperative worker proved equal to the step function |
| `WifiCycles` | what each input makes the worker do, said of the raw scan records and the stored list: whom a cycle calls, when a wait ends, and every connect call of a run |
| `WifiForget` | forgetting the saved networks while the web server's task may be half-way through an edit |
| `EventBus`, `LinkRegistry`, `AppState` | the subscription table, the link table and the change-only flags that the tasks share |
| `NatBridge` | NAT switching across the link threads and the lwIP thread, one interleaved step at a time |
| `BtPan` | the reopen and visibility protocol of the Bluetooth side |
| `WholeSystem` | the WiFi worker, the Bluetooth handlers and NAT switching together, in any interleaving of their threads |
| `DnsCaptive`, `DnsServer` | the captive reply against a decoder of RFC 1035 messages; the reply cache and its request loop |
| `ProxyHead`, `ProxyRelay` | rewriting a response header; relaying a response for every way the network may cut it |
| `HttpUtils` | percent coding within fixed buffers |
| `Clipboard` | the ring of recent texts and the favorites |
| `Vhci` | length-tagged packets in a byte ring shared by two threads |

Each file's static variables are the fields of a class. A method is proved to do what a function on
the fields' values says (`View()` before, `View()` after), and the properties are lemmas about those
functions and about runs of them. A run is a trace of states with the inputs between them. What the
driver, the flash, the network, the clock and other tasks do is an input, and arbitrary.

## Where the code and its comments part

Each of these is stated as an exact condition or shown by a lemma.

- "no saved networks visible, will retry in 15 s" (`main/wifi_manager.c:447-453`) arms no timer when
  the worker was idle: `WifiRuns.RetryTimerExactly`, `WifiRuns.UnarmedWaitLasts`.
- The doubling of the retry delay has no effect: every address resets it before it is used again, so
  each wait after a loss is the base delay (`WifiRuns.TimersOverRuns`).
- A recovery handled after an exhausted cycle leaves the candidate index outside the list
  (`WifiRuns.BoundsKeptExactly`, `WifiRuns.ConnectPastTheTable`); one handled while connected leaves
  the flag set and repeats the uplink event (`WifiRuns.UplinkTrackedExactly`, `WifiRuns.RecoveryRepeatsUplinkUp`).
- A scan request handled while connecting or waiting leaves its in-progress mark set
  (`WifiRuns.ScanFlagClearedExactly`).
- The branch that is to restore visibility when a phone drops the link before BNEP opens
  (`main/bt_pan.c:190-205`) compares with a handle that is only known once BNEP has opened, so it never
  acts (`BtPan.HciRecoveryNeverActs`).
- NAT stays off, until the next flag or event, if the downlink's interface appears after the last one
  was evaluated (`NatBridge.InvKeptExactly`, `NatBridge.LateInterfaceLosesNat`).
- A delete that loads the list before a forget and saves it afterwards undoes the forget: networks come
  back though none was added (`WifiForget.SpanningDeleteConnects`).
- A forgotten network is not gone if only its count was erased: a later add that writes the count and
  fails on the blob brings it back (`NvsStorage.ForgottenNetworkReturns`). Between the two writes of a growing save a load reads
  uninitialised records (`NvsStorage.GrowingSaveIsTorn`).
- A phone that disconnects while no reopen timer can be made leaves the device hidden until another channel opens, which a hidden device does not invite
  (`BtPan.LostReopenStrands`, `BtPan.StrandedStays`).
- A captive reply copies what is behind the question, an EDNS record for one, in front of its own answer
  without counting it, and it cuts a question that ends behind byte 200. So it decodes to the answer
  exactly if the first 200 bytes of the query end with the question
  (`DnsCaptive.CaptiveReplyDecodesExactly`).
- The relay does not always stop exactly at the announced length, as `main/proxy_relay.c:162-165` says
  it does (`ProxyRelay.NeverPastLengthExactly`), and a header block without a space takes its
  status from the body (`ProxyHead.SpacelessBlockIsAmbiguous`).
- An upstream status of 32 bytes or more, an error included, is passed on as "200 OK" (`ProxyHead.StatusOfResponse`).
- The space check for a VHCI packet forgets the two bytes of its tag (`Vhci.FifoKeptExactly`).

## Model

| member | source | states |
|---|---|---|
| `NvsStorage.NvsStore.GetBlob` | main/storage.c:71-78 | a blob is read exactly if the buffer holds all of it; a failed read leaves the buffer alone |
| `NvsStorage.NvsStore.LoadNetworks` | main/nvs_storage.c:10-32 | loads the stored list, or its prefix for a smaller or negative limit, and writes nothing past it; behind a blob shorter than the count the records are arbitrary |
| `NvsStorage.NvsStore.SaveNetworks` | main/nvs_storage.c:34-45 | clamps the count, writes the count key and the blob or erases the blob, and reports whether every write took, for every pattern of failing writes |
| `NvsStorage.NvsStore.AddNetwork` | main/nvs_storage.c:47-71 | saves the list that was read with the network replaced or appended; a full list is refused and left as it is; for every content of the two keys |
| `NvsStorage.NvsStore.RemoveNetwork` | main/nvs_storage.c:73-85 | saves the list that was read without that position, keeping the order; an index out of range changes nothing; for every content of the two keys |
| `NvsStorage.NvsStore.ClearNetworks` | main/nvs_storage.c:87-90 | erases the two keys, either of which may fail |
| `NvsStorage.LoadAfterSave` | main/nvs_storage.c:10-45 | a save that reports success is read back exactly, even when erasing the blob failed |
| `NvsStorage.WholeSaveSucceeds` | main/nvs_storage.c:34-45 | a save whose writes all reach the store reports success and leaves the count and exactly these records, or a count of 0 and no blob |
| `NvsStorage.FailedSaveReadsOldOrNew` | main/nvs_storage.c:34-45 | after a failed save, over any keys from which no uninitialised record is read, the store reads as the old or the new list exactly under a condition on which write fails, the new size, and what the two keys hold |
| `NvsStorage.ForgottenNetworkReturns` | main/nvs_storage.c:87-90 | a network forgotten while its blob stayed comes back when a later add writes the count and not the blob |
| `NvsStorage.GrowingSaveIsTorn` | main/nvs_storage.c:38-40 | between the two writes of a save that makes a stored list longer, the keys disagree; after the second they agree |
| `NvsStorage.AddKeepsUniqueExactly` | main/nvs_storage.c:51-66 | adding keeps SSIDs unique exactly if the SSID fits 32 bytes or its first 32 bytes are new: the search compares all of it, the append cuts it |
| `NvsStorage.AddRefusedExactly` | main/nvs_storage.c:51-60 | an add is refused exactly if six networks are stored and none of them has the SSID |
| `NvsStorage.AddIsMapUpdate` | main/nvs_storage.c:47-71 | adding binds the SSID, changes no other binding, keeps the order, and grows the list only for a new SSID |
| `NvsStorage.RemoveIsMapDelete` | main/nvs_storage.c:73-85 | removing unbinds that SSID and no other |
| `NvsStorage.EditRefinesList` | main/nvs_storage.c:10-90 | each edit of the two keys is the edit of the list they stand for, and keeps SSIDs unique |
| `NvsStorage.StoreRefinesList` | main/nvs_storage.c:10-90 | over every history of adds, removes and clears the two keys stand for one list with unique SSIDs, equal to the list edited directly |
| `ScanCandidates.NoteRecord` | main/wifi_manager.c:324-348 | one record is merged into its SSID's result or appended, with its saved mark |
| `ScanCandidates.StoreScanResults` | main/wifi_manager.c:322-349 | the collapsing loop, which stops reading once 20 results are in |
| `ScanCandidates.ResultsSummarize` | main/wifi_manager.c:322-349 | up to the record that fills the table, the results have one entry per SSID heard, with its loudest reading and its saved mark |
| `ScanCandidates.ResultsSummarizeSmallScan` | main/wifi_manager.c:322-349 | with fewer than 20 SSIDs that holds of the whole scan |
| `ScanCandidates.LaterRecordIsSummarizedExactly` | main/wifi_manager.c:323-333 | a later record is accounted for exactly if the table has room, or knows the SSID with a reading at least as loud |
| `ScanCandidates.ResultsInOrder` | main/wifi_manager.c:322-349 | the results are the first twenty SSIDs heard, in the order in which they were first heard |
| `ScanCandidates.FindSignal` | main/wifi_manager.c:366-373 | whether an SSID is among the results, and its best reading, never below -127 |
| `ScanCandidates.CollectCandidates` | main/wifi_manager.c:364-387 | the saved networks that are visible or hidden, in saved order, in the two parallel arrays, touching no further slot |
| `ScanCandidates.ShiftWeaker` | main/wifi_manager.c:393-398 | entries weaker than the key move up by one in both arrays; the place found is behind the last one not weaker |
| `ScanCandidates.SinkEntry` | main/wifi_manager.c:390-401 | one pass inserts the entry into the ranked ones before it, network and reading together |
| `ScanCandidates.SortCandidates` | main/wifi_manager.c:389-401 | the two arrays, read as pairs, become their stable ranking; slots past the count are untouched |
| `ScanCandidates.BuildCandidateList` | main/wifi_manager.c:360-404 | both halves together |
| `ScanCandidates.RankingSorts` | main/wifi_manager.c:389-401 | the ranking is descending, a permutation, and keeps equal readings in their order |
| `ScanCandidates.RankingIsUnique` | main/wifi_manager.c:389-401 | those three facts determine the list |
| `ScanCandidates.CandidatesOfSmallScan` | main/wifi_manager.c:322-404 | from raw records: for any scan under 20 SSIDs, any list it was marked with and any list loaded after it, the candidates are the latter's networks heard or hidden, each with the larger of -127 and its loudest raw reading, strongest first, ties in saved order |
| `EventBus.Bus.Subscribe` | main/event_bus.c:13-20 | appends to the event's row, unless the event is unknown, the handler missing or the row full |
| `EventBus.Bus.Publish` | main/event_bus.c:22-27 | calls the event's handlers, all and in order of subscription |
| `EventBus.RoleEventsReachTheBridge` | main/nat_bridge.c:42-52 | after boot the four role events, and no others, reach the NAT handler, once each; of the rest only BtUp reaches anyone |
| `EventBus.FirstFourAreCalled` | main/event_bus.c:13-27 | after any sequence of subscriptions an event calls the first four handlers subscribed to it, in order |
| `LinkRegistry.Registry.Register` | main/link_registry.c:13-23 | appends a link; none or a fifth one is refused |
| `LinkRegistry.FirstFourAreHeld` | main/link_registry.c:13-23 | after any registrations the table holds the first four links given, in order |
| `LinkRegistry.Registry.FindConnected` | main/link_registry.c:25-33 | the first registered link of the role that can report and reports connected |
| `AppState.Flags.SetBtConnected` | main/app_state.c:59-68 | sets the flag, and publishes only a change |
| `AppState.Flags.SetWifiConnected` | main/app_state.c:78-87 | sets the flag, and publishes only a change |
| `WifiManager.Worker.constructor` | main/wifi_manager.c:67-80 | the worker's state at boot is the initial state of the runs |
| `WifiManager.Worker.RunScan` | main/wifi_manager.c:263-358 | a scan that fails keeps the old results, one that succeeds replaces them; the in-progress mark ends cleared |
| `WifiManager.Worker.BuildCandidates` | main/wifi_manager.c:360-404 | the new candidates over the old slots, index back at 0 |
| `WifiManager.Worker.StartConnectCycle` | main/wifi_manager.c:440-458 | the imperative cycle is the one of the step function, of which `WifiCycles` says what it calls |
| `WifiManager.Worker.HandleTimeout` | main/wifi_manager.c:470-486 | the imperative timeout is the one of the step function, of which `WifiCycles.TimeoutExactly` says what it does |
| `WifiManager.Worker.OnAddress` | main/wifi_manager.c:515-535 | flag, events, backoff and application state on an address |
| `WifiManager.Worker.OnAttemptFailed` | main/wifi_manager.c:536-555 | second attempt, next candidate, or the long wait |
| `WifiManager.Worker.OnLinkLost` | main/wifi_manager.c:570-595 | flag, events, and either idle or the retry wait |
| `WifiManager.Worker.HandleEvent` | main/wifi_manager.c:488-645 | the imperative worker makes the step that the runs below are made of, with loads that read its two keys, whatever they hold |
| `WifiRuns.BoundsKeptExactly` | main/wifi_manager.c:488-645 | index below count, attempt below 2 and a reason that fits the wait are kept by every input, whatever the loads return, exactly unless it is a recovery after a failed cycle |
| `WifiRuns.StepActsAtMostOnce` | main/wifi_manager.c:410-436 | one input makes at most one driver call, and a connect addresses a live candidate |
| `WifiRuns.BoundsOverRuns` | main/wifi_manager.c:488-645 | in every state of every run without that recovery the bounds hold, and every input of it made at most one driver call, which addressed a candidate below the count if it was a connect |
| `WifiRuns.ConnectPastTheTable` | main/wifi_manager.c:629-634 | with it, from a full list's last attempt, a connect call is made with no slot behind it |
| `WifiRuns.ReasonTellsHow` | main/wifi_manager.c:55-59 | the reason is "lost connection" exactly for waits entered from CONNECTED |
| `WifiRuns.TimersOverRuns` | main/wifi_manager.c:589-593 | on every run each wait after a loss is exactly the base delay, and no timer is armed when idle or connected |
| `WifiRuns.RetryTimerExactly` | main/wifi_manager.c:447-453 | which timer a retry wait has, by where it was entered from: none from IDLE |
| `WifiRuns.UnarmedWaitLasts` | main/wifi_manager.c:466-468 | a retry wait without a timer makes no driver call, over any inputs, until a connect, forget or recovery request |
| `WifiRuns.UplinkTrackedExactly` | main/wifi_manager.c:515-535 | connected flag, CONNECTED state and published events agree after every input exactly unless it is a recovery while connected |
| `WifiRuns.UplinkTrackedOverRuns` | main/wifi_manager.c:570-572 | over every run without one the flag is true exactly in CONNECTED and the events alternate, starting with up |
| `WifiRuns.AlternatingIsPeriodic` | main/wifi_manager.c:524-525 | such a log repeats WiFi-up, uplink-up, WiFi-down, uplink-down position by position |
| `WifiRuns.RecoveryRepeatsUplinkUp` | main/wifi_manager.c:605-611 | after a recovery while connected the next address publishes uplink-up a second time in a row |
| `WifiRuns.StartCycleBegins` | main/wifi_manager.c:440-458 | a cycle either starts with a call to candidate 0, as the failover below takes for granted, or makes no call and waits |
| `WifiRuns.FailoverOrder` | main/wifi_manager.c:536-555 | among any ignored requests and timeouts, after k < 2n disconnects the calls were 0,0,1,1,... up to the (k+1)st, each to its own candidate |
| `WifiRuns.FailoverEnds` | main/wifi_manager.c:546-553 | exactly the 2n-th disconnect ends the cycle, in the 15-second wait |
| `WifiRuns.ScanFlagClearedExactly` | main/wifi_manager.c:563-564 | handling a posted scan request clears its mark exactly in IDLE and CONNECTED |
| `WifiRuns.RunsFromBoot` | main/wifi_manager.c:67-80 | from boot, over every run without the two recoveries, bounds, timers and uplink tracking hold |
| `WifiCycles.ScanSummarizes` | main/wifi_manager.c:322-349 | the results of any scan have one entry per SSID, with its loudest reading and its saved mark, of the records up to the twentieth SSID |
| `WifiCycles.FewSsidsAreAllRead` | main/wifi_manager.c:323 | with fewer than 20 SSIDs these are all records |
| `WifiCycles.ScanIsRated` | main/wifi_manager.c:322-387 | for any scan the networks worth trying are the saved ones that were heard or are hidden, in saved order, each with its strongest raw reading, at least -127 |
| `WifiCycles.CycleRanks` | main/wifi_manager.c:440-458 | a cycle ranks these networks, rated by its own scan or, if that failed, by the old results, and calls the first of the strongest; without any it calls nobody and waits |
| `WifiCycles.TimeoutExactly` | main/wifi_manager.c:470-486 | a timeout in the retry wait starts such a cycle and never ends idle if a network is stored; without one it ends idle, with no timer and no driver call; elsewhere nothing happens |
| `WifiCycles.ConnectRequestExactly` | main/wifi_manager.c:494-497 | a connect request starts such a cycle in the retry wait, and in IDLE if a network is stored; otherwise it only reports that there is none, or is ignored |
| `WifiCycles.LossExactly` | main/wifi_manager.c:570-595 | a disconnect while connected clears the flag, publishes the loss, and ends in a wait of 1000 ms if a network is stored and in IDLE if not, with no driver call |
| `WifiCycles.LossIsRetried` | main/wifi_manager.c:470-595 | the loss and the timeout after it make such a cycle after 1000 ms |
| `WifiCycles.AddressExactly` | main/wifi_manager.c:510-535 | an address while connecting connects, publishes it, sets the backoff to 1000 ms and bridges exactly if Bluetooth is connected |
| `WifiCycles.AttemptExactly` | main/wifi_manager.c:536-555 | a disconnect while connecting calls the same candidate a second time, then the next one, then waits 15000 ms without candidates |
| `WifiCycles.ScanRequestExactly` | main/wifi_manager.c:498-500 | a scan request changes nothing but the results, and those only in IDLE and CONNECTED |
| `WifiCycles.ForgetExactly` | main/wifi_manager.c:596-628 | a forget request erases the keys in every state, drops the link except in the retry wait, and ends idle except while connected |
| `WifiCycles.RecoveryExactly` | main/wifi_manager.c:605-634 | a recovery resets the driver and goes on connecting without a timer in CONNECTED and the retry wait, and is ignored elsewhere |
| `WifiCycles.ConnectsExactly` | main/wifi_manager.c:410-455 | an input makes a connect call exactly if it starts a cycle with a stored network that was heard or is hidden, or is a disconnect while connecting with a candidate left to try |
| `WifiCycles.ConnectsOverRuns` | main/wifi_manager.c:488-645 | over every run without a recovery after a failed cycle there are as many connect calls as such inputs |
| `WifiForget.WorkerRuns` | main/nvs_storage.c:47-85 | a run of the worker and the web server's edits, with their separate load and two writes, is a run of the worker |
| `WifiForget.ForgetForgetsExactly` | main/wifi_manager.c:500-504 | a handled forget leaves nothing to connect to exactly if a key was erased (or nothing was stored) and no edit is on its way to save a network |
| `WifiForget.ForgottenKeptExactly` | main/wifi_manager.c:599-604 | it stays so, act by act, exactly unless an add is begun or a recovery is handled while connected |
| `WifiForget.ForgetIsFinal` | main/wifi_manager.c:470-504 | no connect call is made after such a forget, through any later acts of both tasks, until one of those two |
| `WifiForget.SpanningDeleteConnects` | main/nvs_storage.c:73-85 | a delete that spans the forget leaves a network, and the next connect request calls the driver, in a run without adds or recoveries |
| `NatBridge.InvKeptExactly` | main/nat_bridge.c:12-40 | what a running update has read stays current, or another update is due, after every act exactly unless the interface appears too late |
| `NatBridge.NoLostUpdate` | main/nat_bridge.c:12-52 | under every interleaving, with nothing queued, running, or between flag and event, NAT on the serving downlink is on exactly when an uplink is connected, if no interface came too late since a flag was last set or an event published |
| `NatBridge.LateInterfaceLosesNat` | main/nat_bridge.c:17-22 | a run from boot after which both links are up, the interface is there, nothing is due, and NAT is off |
| `NatBridge.QuietSystemConverges` | main/nat_bridge.c:33-35 | with no event outstanding the lwIP thread stops by itself, with NAT right |
| `NatBridge.UpdateNat` | main/nat_bridge.c:12-31 | the callback as one piece: what it does to the interfaces |
| `NatBridge.UninterruptedUpdate` | main/nat_bridge.c:12-31 | the interleaved steps of the callback, taken in a row, are that piece, from every point of it |
| `NatBridge.OnlyUpdatesSwitch` | main/nat_bridge.c:12-40 | nothing but the end of an update switches NAT, and that on the one interface it found |
| `NatBridge.NatFollowsWifi` | main/wifi_manager.c:195-201 | from boot, for WiFi over Bluetooth, under the same condition: NAT is on exactly when the WiFi flag is set |
| `WholeSystem.Refines` | main/nat_bridge.c:33-52 | every act of the WiFi worker and of the Bluetooth handlers is nothing to NAT switching, or the setting of one flag with the role event that tells it |
| `WholeSystem.WifiReports` | main/wifi_manager.c:524-572 | the WiFi flag changes only with the uplink event that says so published last |
| `WholeSystem.BtReports` | main/bt_pan.c:251-274 | the Bluetooth flag changes only with the downlink event that says so published last |
| `WholeSystem.InternetFollowsWifi` | main/nat_bridge.c:12-52 | over every run of the whole system from boot, with nothing queued, running or between flag and event, a connected phone has NAT exactly while the worker is in CONNECTED; with no event outstanding the lwIP thread gets there by itself; unless an interface came too late since the last report or a recovery was handled while connected |
| `BtPan.InvKeptExactly` | main/bt_pan.c:128-157 | the visibility invariant is kept by every handler, timer and callback step exactly unless a hidden device asks for a reopen and gets no timer |
| `BtPan.VisibilityOverRuns` | main/bt_pan.c:128-295 | with working timers: connected implies hidden, hidden and disconnected implies a reopen pending, the guard flag counts exactly one outstanding reopen, and the callback is never queued twice |
| `BtPan.HiddenReopens` | main/bt_pan.c:128-144 | that pending reopen, run, makes the device visible and frees the guard |
| `BtPan.LostReopenStrands` | main/bt_pan.c:154-156 | a run from boot, with one failed timer creation, after which the device is hidden, disconnected and has no reopen under way |
| `BtPan.StrandedStays` | main/bt_pan.c:128-157 | it stays so through every act but the opening or closing of a channel |
| `BtPan.ReopenDuringConnection` | main/bt_pan.c:128-134 | a reopen that runs during a new connection leaves it hidden |
| `BtPan.HciRecoveryNeverActs` | main/bt_pan.c:190-205 | an HCI disconnect of a valid handle changes nothing |
| `BtPan.OpenExactly` | main/bt_pan.c:238-270 | a channel that opens without error, the only one, connects, hides the device, publishes BtUp and DownlinkUp, and bridges exactly if WiFi is connected; any other changes nothing |
| `BtPan.CloseExactly` | main/bt_pan.c:272-296 | every closing disconnects, forgets the handle, publishes DownlinkDown last (BtDown before it if connected), waits for Bluetooth, and schedules one reopen unless one is under way |
| `BtPan.RoleEventsOverRuns` | main/bt_pan.c:251-274 | over every run from boot, with or without working timers, the last role event published is DownlinkUp exactly while connected |
| `BtPan.Pan.OnChannelOpened` | main/bt_pan.c:238-270 | the imperative handler is the step of which `BtPan.OpenExactly` says what it does |
| `BtPan.Pan.OnChannelClosed` | main/bt_pan.c:272-296 | the imperative handler is the step of which `BtPan.CloseExactly` says what it does, for each outcome of the timer calls |
| `BtPan.Pan.OnHciDisconnected` | main/bt_pan.c:182-207 | the handler makes the protocol's step |
| `BtPan.Pan.ScheduleReopen` | main/bt_pan.c:146-157 | a timer is pending, or the guard is released |
| `BtPan.Pan.OnReopenCallback` | main/bt_pan.c:128-134 | both halves of the callback |
| `DnsCaptive.FindQuestionType` | main/dns_server.c:95-101 | the name walk ends, where the recursive walk says |
| `DnsCaptive.MakeCaptiveReply` | main/dns_server.c:91-145 | the bytes of the reply, for every query and buffer limit |
| `DnsCaptive.CaptiveReply` | main/dns_server.c:91-145 | a reply never exceeds the buffer nor 216 bytes, and is empty or holds a whole header |
| `DnsCaptive.NameRoundTrip` | main/dns_server.c:95-101 | any uncompressed name is decoded from its bytes |
| `DnsCaptive.QuestionRoundTrip` | main/dns_server.c:131-135 | wherever the question's bytes are copied to offset 12, it decodes to the question |
| `DnsCaptive.AnswerRoundTrip` | main/dns_server.c:136-143 | the appended record decodes to an A record whose pointer resolves to the queried name and whose address is the gateway |
| `DnsCaptive.CaptiveReplyDecodesExactly` | main/dns_server.c:91-145 | for every header plus one uncompressed question and any bytes behind it, the reply decodes (RFC 1035, 4.1.1 to 4.1.4) to the same ID and question and the right answer or RCODE 3, exactly if the first 200 bytes end with the question |
| `DnsCaptive.FirstTypeDecides` | main/dns_server.c:94-121 | the type right behind the first name decides, whatever follows it: one answer and RCODE 0 for type A, none and RCODE 3 otherwise, under the ID and with the question; the class is not looked at |
| `DnsCaptive.WalkEndsBehindPointer` | main/dns_server.c:95-101 | a first name cut short by a pointer ends behind the pointer |
| `DnsServer.DnsQueryHash` | main/dns_server.c:50-54 | the loop computes the 32-bit accumulator over bytes 12 to 39, folded to 16 bits |
| `DnsServer.Server.CacheLookup` | main/dns_server.c:56-73 | the loop over the slots, with its switching off of expired entries |
| `DnsServer.Server.CacheStore` | main/dns_server.c:75-89 | overwrites the next slot; refuses lengths outside 12 to 512 |
| `DnsServer.Server.ServeOne` | main/dns_server.c:248-281 | the imperative body of the loop is the function of which `DnsServer.RepliesExactly` says what it answers |
| `DnsServer.HashNeverMisses` | main/dns_server.c:59-63 | the hash and length filter never rejects an entry that holds the query's key |
| `DnsServer.SearchIsExact` | main/dns_server.c:61-72 | the search only switches off expired entries, a hit is fresh and has the key, after a miss no slot has it |
| `DnsServer.LookupReadsMap` | main/dns_server.c:56-73 | a lookup reads a finite map: the fresh answer bound to the key under the query's ID, and nothing else |
| `DnsServer.StoreUpdatesMap` | main/dns_server.c:75-89 | after a miss a store binds the key and evicts at most the answer in the slot it takes |
| `DnsServer.StoreKeepsDistinctExactly` | main/dns_server.c:79-88 | a store keeps the keys distinct exactly if no other slot holds the key |
| `DnsServer.InvKept` | main/dns_server.c:263-272 | each request keeps the ring equal to the last sixteen stores, with distinct keys, and older answers to a question stored again switched off |
| `DnsServer.InvOverRuns` | main/dns_server.c:235-282 | and so does every run of the request loop |
| `DnsServer.TrueAge` | main/dns_server.c:64 | the age by the wrapping 32-bit clock is the true age modulo 2^32 |
| `DnsServer.HitsAreRecent` | main/dns_server.c:60-70 | every hit is the most recent upstream answer to that question, among the last sixteen to any, and at most a minute old in true time if younger than 2^32 ms, also across a wrap |
| `DnsServer.StoredAnswersAreFound` | main/dns_server.c:79-88 | a stored answer is found until it is a minute old or sixteen more are stored |
| `DnsServer.RepliesExactly` | main/dns_server.c:248-281 | for every request: under 12 bytes nothing is sent; proxy mode sends the captive answer and leaves the cache alone; a binding at most 60000 ms old is sent under the new ID; otherwise the bytes of the upstream are sent as they are and bound, or the captive answer if it was not reached |
| `DnsServer.OthersKeepBinding` | main/dns_server.c:56-89 | a request unbinds other questions only by expiry or by taking over their slot, and in proxy mode none |
| `DnsServer.RepeatIsCached` | main/dns_server.c:266-275 | a question answered upstream and asked again within a minute, under any ID, gets the same bytes from the cache |
| `DnsServer.HashIsWeightedSum` | main/dns_server.c:50-54 | the accumulator is the sum of the bytes times descending powers of 31, modulo 2^32 |
| `ProxyHead.RewriteIsWantedExactly` | main/proxy_relay.c:69-142 | the buffered rewriting equals the intended one exactly if that is under 2048 bytes |
| `ProxyHead.StatusOfResponse` | main/proxy_relay.c:72-83 | the status is what follows the version on the first line, any version; one of 32 bytes or more becomes "200 OK" |
| `ProxyHead.WantedParsesBack` | main/proxy_relay.c:85-140 | the rewritten header parses back to the same status and exactly the kept lines, in order, and one closing line |
| `ProxyHead.WantedFraming` | main/proxy_relay.c:17-21 | no Transfer-Encoding and no upstream Connection survives; the only Connection line is the last |
| `ProxyHead.VerdictByName` | main/proxy_relay.c:104-133 | by its name alone: a line is normalized for Content-Length, dropped for Transfer-Encoding, Connection or a name of 64 bytes or more, in any letter case, and otherwise kept verbatim |
| `ProxyHead.AnnouncedLengthIsRead` | main/proxy_relay.c:116-121 | the last announcing line decides, in any letter case, behind any spaces, with leading zeros and whatever follows the digits: the number of its first 31 digits, or 2^32 - 1 if that is larger |
| `ProxyHead.UnannouncedLength` | main/proxy_relay.c:95-96 | without such a line there is no length |
| `ProxyHead.WantedHasOneBlank` | main/proxy_relay.c:139 | the rewritten header has a blank line at its very end and nowhere else |
| `ProxyHead.WantedIsIdempotent` | main/proxy_relay.c:69-140 | rewriting a rewritten header changes nothing |
| `ProxyHead.HeadersSurvive` | main/proxy_relay.c:98-136 | every line with a colon, a name under 64 bytes and no framing name is a line of the parsed output, verbatim and in order, and the only others are Content-Length lines and the closing one |
| `ProxyHead.LengthSurvives` | main/proxy_relay.c:116-125 | the rewritten header announces the same body length as the upstream's |
| `ProxyHead.LineTakenExactly` | main/proxy_relay.c:126-132 | in the buffer a line is copied whole, or left out exactly if the blank line behind it would not fit in 2048 bytes |
| `ProxyHead.RewriteIgnoresTheRest` | main/proxy_relay.c:69-136 | body bytes read along with a block that has a space do not change the rewriting |
| `ProxyHead.SpacelessBlockIsAmbiguous` | main/proxy_relay.c:72-83 | without a space they do |
| `ProxyRelay.ScanFrom` | main/proxy_relay.c:58-66 | finds a blank line from a position on, exactly if there is one |
| `ProxyRelay.ReadChunk` | main/proxy_relay.c:50-54 | one read appends what came and closes it with a NUL |
| `ProxyRelay.NoBlankBefore` | main/proxy_relay.c:56-59 | going back three bytes is enough to see a blank line that two reads share |
| `ProxyRelay.ReadHead` | main/proxy_relay.c:44-67 | for every cut, the loop stops at the chunk that completes the first blank line, at a full buffer, or at the end of the stream, having read what the reads of that cut add up to |
| `ProxyRelay.HeaderOfAnyCut` | main/proxy_relay.c:44-154 | whatever part of the stream was read, the rewriting is that of the block alone, and the leftover is what was read behind it |
| `ProxyRelay.BlockIsRead` | main/proxy_relay.c:50-67 | a block that fits the buffer is read whole, whatever the cut |
| `ProxyRelay.ParseStatus` | main/proxy_relay.c:69-83 | the status behind the first space, if its line ends and it has at most 31 bytes |
| `ProxyRelay.JudgeLine` | main/proxy_relay.c:104-134 | the loop body decides about a line as specified |
| `ProxyRelay.CopyLine` | main/proxy_relay.c:126-132 | a line is copied with its line end, or left out if it might not fit |
| `ProxyRelay.Print` | main/proxy_relay.c:122-125 | a guarded print cuts the text at the buffer but counts all of it |
| `ProxyRelay.EmitLines` | main/proxy_relay.c:98-136 | the loop over the header lines into the output buffer, and the announced length |
| `ProxyRelay.RewriteHead` | main/proxy_relay.c:69-142 | the output buffer holds the rewriting of the block |
| `ProxyRelay.RelayBody` | main/proxy_relay.c:162-172 | how many bytes are forwarded, for every cut: chunk by chunk, each begun below the announced length, until it is reached or the stream ends |
| `ProxyRelay.BodyIsRight` | main/proxy_relay.c:147-172 | for every stream and cut the body sent is a prefix of the true one, complete without a length or within it, at least the announced length otherwise, and then over it by less than a chunk or by what came along with the header |
| `ProxyRelay.NeverPastLengthExactly` | main/proxy_relay.c:162-172 | for a stream with a block that fits, no cut of it sends more than announced exactly if the body is no longer than announced (or nothing is announced and nothing can come with the header) |
| `ProxyRelay.RelayBytes` | main/proxy_relay.c:44-172 | the whole relay, as a function of the stream and its cuts: for every plain stream the same header for every cut, and a right body |
| `HttpUtils.UrlEncode` | main/http_utils.c:96-108 | the encoding loop fills the buffer with whole escapes, closes it, and stays within it |
| `HttpUtils.UrlDecode` | main/http_utils.c:117-132 | the decoding loop writes what the buffer has room for, and closes it |
| `HttpUtils.EncodedCountIsMaximal` | main/http_utils.c:98 | the encoder stops at the first byte at which four bytes of room are gone, never inside an escape |
| `HttpUtils.EncodeAllIsPercentEncoded` | main/http_utils.c:100-105 | output is unreserved characters and upper-case escapes (RFC 3986, 2.1 and 2.3) |
| `HttpUtils.EncodedByteExactly` | main/http_utils.c:100-105 | a byte is encoded as itself exactly if RFC 3986, 2.3, leaves it unreserved, and otherwise as an escape with upper-case digits |
| `HttpUtils.DecodeEncoded` | main/http_utils.c:96-132 | decoding an encoded string gives it back, or the prefix that fits |
| `HttpUtils.FormsAreDecoded` | main/http_utils.c:110-132 | every submitted form reads as what it means: a plus as a space, an escape with digits of either case as its byte, other bytes as they are, up to what the buffer holds |
| `HttpUtils.StrayPercentIsKept` | main/http_utils.c:120-129 | a percent sign that two hex digits do not follow stands for itself |
| `HttpUtils.RoundTripExactly` | main/http_utils.c:96-132 | through an encode buffer of a given size a string survives exactly if its last byte may still be started |
| `HttpUtils.SsidSurvives` | main/http_routes.c:515-522 | every SSID of up to 32 bytes survives the 100-byte buffers of the page and of the handler |
| `HttpUtils.ThirtyThreeDoNot` | main/http_routes.c:664-671 | 33 escaped bytes would not |
| `Clipboard.CheckLink` | main/clipboard.c:54-58 | whether the text behind leading blanks starts like a link |
| `Clipboard.ClipStore.ClipAdd` | main/clipboard.c:60-79 | the store after an add: oldest dropped from a full ring, the cut text appended with its mark and id |
| `Clipboard.ClipStore.ClipFind` | main/clipboard.c:83-99 | the first entry with the id, ring before favorites |
| `Clipboard.ClipStore.ClipPin` | main/clipboard.c:101-112 | the imperative pin is the function of which `Clipboard.PinExactly` says what it does |
| `Clipboard.ClipStore.ClipUnpin` | main/clipboard.c:114-127 | the store after an unpin |
| `Clipboard.ClipStore.ClipDelete` | main/clipboard.c:129-144 | the store after a delete |
| `Clipboard.ShiftDown` | main/clipboard.c:67-68 | the array shift removes exactly that position |
| `Clipboard.InvKeptExactly` | main/clipboard.c:60-144 | distinct ids, rising ring ids and non-empty texts are kept by every operation exactly unless it takes the last 32-bit id |
| `Clipboard.InvOverRuns` | main/clipboard.c:60-144 | over every sequence that leaves the id counter room |
| `Clipboard.InvFromEmpty` | main/clipboard.c:41-52 | from an empty store: fewer than 2^32 - 1 adds and unpins, any pins and deletes |
| `Clipboard.TextsConserved` | main/clipboard.c:60-144 | as a multiset, texts only enter by an add and only leave by eviction of the oldest or by a delete |
| `Clipboard.TextsConservedOverRuns` | main/clipboard.c:60-144 | over every sequence, the texts held at the end and those lost on the way are those held at first and those brought in |
| `Clipboard.UnpinReturnsText` | main/clipboard.c:119-126 | an unpinned text becomes the newest ring entry, even when the ring is full |
| `Clipboard.PinExactly` | main/clipboard.c:101-112 | with fewer than 8 favorites a pin moves the ring entry with the id, whole, behind the favorites and closes the gap; otherwise nothing changes |
| `Clipboard.AddExactly` | main/clipboard.c:60-79 | an added text, cut to 255 bytes, becomes the newest entry under a fresh id, and only a sixteenth one costs the oldest |
| `Clipboard.UnpinExactly` | main/clipboard.c:114-127 | an unpin takes the favorite out, in order, and adds its text again; any other id changes nothing |
| `Clipboard.DeleteExactly` | main/clipboard.c:129-144 | a delete takes the entry with the id out of the list that holds it, in order; any other id changes nothing |
| `Clipboard.LinkExactly` | main/clipboard.c:54-58 | a text is a link exactly if "http://" or "https://", in any case, comes behind nothing but blanks and tabs |
| `Clipboard.FavoritesStayOverRuns` | main/clipboard.c:101-144 | over every sequence a favorite leaves only by its own unpin or delete |
| `Clipboard.LinksMarkedKept` | main/clipboard.c:75 | every entry's link mark stays right for its text |
| `Vhci.FramesInjective` | components/btstack-esp32/hci_transport_esp32_vhci.c:151-157 | the bytes of the ring determine the packets |
| `Vhci.FifoKeptExactly` | components/btstack-esp32/hci_transport_esp32_vhci.c:143-157 | whole tagged packets in order are kept by every act of both threads exactly unless a packet is accepted that fits without its tag |
| `Vhci.AcceptedOverRuns` | components/btstack-esp32/hci_transport_esp32_vhci.c:143-157 | over every run what was accepted is what was received and fitted the free bytes, in order |
| `Vhci.LoneTag` | components/btstack-esp32/hci_transport_esp32_vhci.c:144-154 | a packet accepted into an empty ring one byte larger than it leaves its tag alone in the ring |
| `Vhci.NotStrandedKept` | components/btstack-esp32/hci_transport_esp32_vhci.c:159-161 | a packet is never left in the ring with nobody due to take it |
| `Vhci.FifoOverRuns` | components/btstack-esp32/hci_transport_esp32_vhci.c:134-193 | under every interleaving what is delivered is a prefix of what was accepted, and all of it once both threads rest |
| `Vhci.ConsumerIsNeverStuck` | components/btstack-esp32/hci_transport_esp32_vhci.c:182-187 | the consumer meets an empty ring or a whole packet |
| `Vhci.Transport.HostReceive` | components/btstack-esp32/hci_transport_esp32_vhci.c:134-163 | the producer makes the protocol's two steps, the critical section and the wake-up |
| `Vhci.Transport.DeliverPackets` | components/btstack-esp32/hci_transport_esp32_vhci.c:179-193 | whatever arrives while the mutex is released, what happens is a run of the protocol; the loop ends with the ring empty and everything delivered, as long as each accepted packet had room for its tag |

## Left out

- WiFi worker: the display copies of SSID, password, IP and signal strength, the driver's connection settings, and the eight-entry event queue; the inputs of a run are arbitrary instead, with any of them dropped or repeated. What its loads return is arbitrary too, except in `WifiForget`.
- WiFi worker: the inside of `wifi_soft_reset` (one abstract action), and the three-second Bluetooth settle task, which only posts a connect request.
- `WifiForget.ForgetIsFinal`: the worker handles one input, with its loads and its two erases, without a write of the web server's task in between. That task's load and its two writes are separate acts, and any of the writes may fail; it makes one edit at a time.
- Flash: a write that takes effect although its commit reports failure. Records read from uninitialised memory are arbitrary, but taken to hold closed strings.
- `NatBridge.NoLostUpdate`: assumes that `tcpip_callback` queues every update; the code does not look at its result. The interface found for a link is taken to stay the same.
- `WholeSystem.InternetFollowsWifi`: the shared flags that one side reads of the other, and the application state, are arbitrary inputs, so runs of the firmware are among the runs; a handler that reports again before its last event is published is not.
- Bluetooth: timers that are never deleted, RSSI polling, pairing, and the refusal of a second channel beyond leaving the state alone.
- `DnsServer.InvOverRuns`: runs start with an empty cache; the watchdog's restart of the server and its clearing of the cache are not part of the runs.
- DNS: sockets, the check that an answer comes from the upstream server, and the choice of that server. An upstream answer is any 12 to 512 bytes.
- `DnsCaptive.CaptiveReplyDecodesExactly`: a first name with a compression pointer, or a question not in RFC 1035 form, gets the bytes that `DnsCaptive.MakeCaptiveReply` states, with no claim on their meaning.
- `ProxyRelay.RelayBytes`: sends are taken to succeed in full, and a read that fails ends the stream; a stream without a plain block has no claim on its header or body.
- `ProxyHead.RewriteIsWantedExactly`: what is sent for a header over 2047 bytes, where the code's length exceeds its text.
- Proxy: the request side (`handler_proxy_relay`), and decoding of chunked bodies, which the relay does not do.
- Clipboard: saving to and loading from flash, the mutex, and the pages.
- `html_escape` and all HTTP handlers; only the buffer sizes around percent coding are used.
- `Vhci.Transport.DeliverPackets`: finitely many packets arrive while it runs, so that it ends, and it stops at the first one accepted without room for its tag.
- VHCI: packets of length 0, what is read once the framing is lost, the size of the receive buffer, and the send direction. The ring buffer of BTstack is not part of this model; its writes put in all bytes or none.
- `main/proxy_gateway.c`, `main/device_name.c`, `main/uptime.c`, `main/watchdog.c`, boards, battery and audio: wrappers, single branches or hardware access.
