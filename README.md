# Wi-Fi network module: connectivity status, connected gate and bootstrap

This project models the network module of a Zephyr Wi-Fi sample
(`src/modules/network/network_wifi.c`) and proves properties of the model in Dafny.
The module does five things:

- Its three net_mgmt callbacks reduce raw network-management events to a status,
  CONNECTED or DISCONNECTED, and publish it on the zbus channel NETWORK_CHAN. A failed
  publish raises the fatal error.
- The IPv4 callback gives a single-permit semaphore, `wifi_connected_sem`, on every
  address add.
- An optional multicast membership manager joins and leaves IPv4 groups on an interface.
- `network_task` may build a Wi-Fi connect request from a stored credential.
- `network_task` may connect with the static configuration, waits on the semaphore unless
  CONFIG_SMF is set, and then runs at most one demo workload chosen at build time.

Layout, one module per file:

| file | module | what it holds |
|---|---|---|
| `wrappers.dfy` | `Wrappers` | `Option` |
| `semaphores.dfy` | `Semaphores` | `k_sem` as a class with a count and a limit; `Given`, the count after a give |
| `status_reducer.dfy` | `StatusReducer` | events, the three handlers' mappings, the shared state `NetState`, `Step`/`Run` over deliveries, and lemmas about sequences of deliveries |
| `credentials.dfy` | `Credentials` | the stored credential record, the connect request built from it, and the slot `get_wifi_credential` overwrites |
| `multicast.dfy` | `Multicast` | the interface's multicast table as a class, its specification functions, the notices it emits, and the return-code finding |
| `bootstrap.dfy` | `Bootstrap` | the build switches, the workload choice, `connect()`'s outcome, the gate wait, the whole `network_task` trace as a function, and lemmas about it |
| `network_wifi.dfy` | `NetworkWifi` | the module's mutable state as the class `NetworkContext`: the handlers, the stack's dispatch, `connect()` and `network_task` as methods proved against the functions above |

The `#if CONFIG_*` switches are turned into an explicit `BuildConfig` record.
External answers are inputs gathered in an `Environment` record:

- the records the credential store yields;
- whether `net_if_get_default()` returned an interface;
- the results of the two `net_mgmt` connect requests;
- the events the stack delivers, each with the result of its `zbus_chan_pub`.

A fatal error is terminal. Once it is raised, no later event is handled and
`network_task` goes no further.

## Model

| member | source | states |
|---|---|---|
| `Semaphores.Given` | src/modules/network/network_wifi.c:107 | a give adds at most one; it adds one exactly when the count is below the limit; it never takes the count above the limit |
| `Semaphores.GivenSaturates` | src/modules/network/network_wifi.c:22 | over any number of gives the count stays within the limit, and enough gives leave it exactly at the limit |
| `Semaphores.Semaphore.constructor` | src/modules/network/network_wifi.c:22 | K_SEM_DEFINE: the count starts at the initial value, under the limit, and the limit is nonzero |
| `Semaphores.Semaphore.Give` | src/modules/network/network_wifi.c:107 | k_sem_give moves the count as `Given` says and keeps it within the limit |
| `Semaphores.Semaphore.TryTake` | src/modules/network/network_wifi.c:268 | a permit is taken exactly when the count is positive; the count then drops by one, otherwise it stays |
| `StatusReducer.WifiMgmtStatus` | src/modules/network/network_wifi.c:69-87 | the link handler never publishes CONNECTED; it publishes DISCONNECTED exactly for a disconnect result; connect results, successful or not, and every other event publish nothing |
| `StatusReducer.Ipv4MgmtStatus` | src/modules/network/network_wifi.c:102-117 | CONNECTED exactly for an address add, DISCONNECTED exactly for an address delete, nothing otherwise |
| `StatusReducer.Ipv4McastStatus` | src/modules/network/network_wifi.c:132-146 | CONNECTED exactly for a multicast join, DISCONNECTED exactly for a leave, nothing otherwise |
| `StatusReducer.HandlersDisjoint` | src/modules/network/network_wifi.c:62-153 | no event makes two different handlers publish |
| `StatusReducer.StepEffect` | src/modules/network/network_wifi.c:96-124 | one delivery: registration is unchanged; the fatal flag is raised exactly by a failed publish; the gate is given only by an address add to the IPv4 callback; a successful publish appends exactly the handler's status |
| `StatusReducer.RunGateBounded` | src/modules/network/network_wifi.c:103-108 | over any sequence of deliveries the gate never decreases and never exceeds its limit of 1 |
| `StatusReducer.GateBoundedFromBoot` | src/modules/network/network_wifi.c:22 | from the boot state (count 0) the gate count stays at most 1 whatever events arrive |
| `StatusReducer.RunKeepsRegistered` | src/modules/network/network_wifi.c:210-218 | handling events never changes which callbacks are registered |
| `StatusReducer.RunFatalIff` | src/modules/network/network_wifi.c:89-152 | a run ends fatal exactly when some delivery publishes and that publish fails, in any of the three handlers; successful publishes never lead to fatal |
| `StatusReducer.RunIgnoresGate` | src/modules/network/network_wifi.c:96-124 | the gate's count never influences the handlers: two states that differ only in it publish the same statuses, reach the same fatal outcome and keep the same registrations |
| `StatusReducer.RunExtendsPublished` | src/modules/network/network_wifi.c:89 | statuses the bus already accepted are never taken back |
| `StatusReducer.ConnectResultsSilent` | src/modules/network/network_wifi.c:70-78 | any sequence of link connect results, failed or successful, leaves the whole state unchanged: nothing is published, the gate is untouched, nothing is fatal |
| `StatusReducer.CurrentStatusFollowsLatestAddress` | src/modules/network/network_wifi.c:102-123 | over IPv4 events with successful publishes, the latest published status is CONNECTED exactly when the most recent address event was an add, and DISCONNECTED exactly when it was a delete; with no address event nothing is published |
| `StatusReducer.RepeatedAddressAdd` | src/modules/network/network_wifi.c:103-108 | two address adds from a fresh gate: the first raises it to 1, the second is a no-op on the gate, and both publish CONNECTED |
| `StatusReducer.Ipv4GateOnlyOnAdd` | src/modules/network/network_wifi.c:109-116 | an address delete leaves the gate unchanged; an unknown event changes nothing at all |
| `Credentials.BuildConnectParams` | src/modules/network/network_wifi.c:229-249 | a request exists exactly when ssid_len > 0; SSID, length and security are copied; the PSK and its length are set exactly when security is not NONE, otherwise none and 0; the SAE password is none and 0; the band is 5 GHz exactly when the 5 GHz flag bit is set; the channel is ANY and MFP is optional |
| `Credentials.ConnectParamsIgnoreOtherBits` | src/modules/network/network_wifi.c:241-248 | for an open network the request depends neither on the password nor on flag bits other than the 5 GHz one |
| `Credentials.CredentialSlot.constructor` | src/modules/network/network_wifi.c:222 | the slot starts zeroed |
| `Credentials.CredentialSlot.GetWifiCredential` | src/modules/network/network_wifi.c:24-30 | each call overwrites the whole slot with the record looked up |
| `Credentials.ForEachSsid` | src/modules/network/network_wifi.c:228 | after the scan the slot holds the last record, or what it held before when the store is empty |
| `Credentials.ScanBuildsRequestIff` | src/modules/network/network_wifi.c:228-229 | a scan into a zeroed slot yields a request exactly when the store is non-empty and its last record has an SSID |
| `Multicast.JoinSpec` | src/modules/network/network_wifi.c:161-179 | an entry present and joined gives already-joined and changes nothing; an absent entry with a full table gives out-of-memory and changes nothing; otherwise the result is Ok, the entry ends present and joined (an unjoined entry is reused, not added again), every other entry is unchanged and exactly one JOIN notice is appended; the capacity bound is kept |
| `Multicast.LeaveSpec` | src/modules/network/network_wifi.c:188-203 | an absent entry gives not-found and changes nothing; a failed remove gives invalid and changes nothing; otherwise the result is Ok, the entry is removed, the others are unchanged and exactly one LEAVE notice is appended |
| `Multicast.JoinTwice` | src/modules/network/network_wifi.c:161-179 | joining a group twice: the first join succeeds with one JOIN notice, the second reports already-joined and changes nothing |
| `Multicast.SampleGroupJoinTwice` | src/modules/network/network_wifi.c:60 | for the sample's group 239.255.255.250 on a fresh interface with room, the first join leaves exactly that entry joined with one JOIN notice, and a second join reports already-joined and changes nothing |
| `Multicast.JoinThenLeave` | src/modules/network/network_wifi.c:156-205 | a successful join followed by a leave removes the group, keeps every other entry and leaves JOIN then LEAVE in the log |
| `Multicast.LeaveAbsentIdempotent` | src/modules/network/network_wifi.c:188-191 | leaving an absent group reports not-found and changes nothing, however often it is repeated |
| `Multicast.NoticesDriveStatus` | src/modules/network/network_wifi.c:177-179 | the event notified by a successful join, handed to the multicast callback, publishes CONNECTED; the event of a successful leave publishes DISCONNECTED |
| `Multicast.SuccessIndistinguishableAsWritten` | src/modules/network/network_wifi.c:180 | as written, a successful join can return -ENOMEM, the value a full table returns |
| `Multicast.ReturnCode` | src/modules/network/network_wifi.c:163-180 | corrected return value: zero exactly on success, otherwise negative |
| `Multicast.ReturnCodeInjective` | src/modules/network/network_wifi.c:183-204 | with the corrected return value every outcome of join and leave is told apart by its int |
| `Multicast.McastInterface.Join` | src/modules/network/network_wifi.c:156-181 | the table and notice log change as `JoinSpec` says, and the int returned is the corrected code |
| `Multicast.McastInterface.JoinResult` | src/modules/network/network_wifi.c:161-179 | the lookup, add, join and notify steps leave the table as `JoinSpec` says |
| `Multicast.McastInterface.Leave` | src/modules/network/network_wifi.c:183-205 | the table and notice log change as `LeaveSpec` says, and the int returned is the corrected code |
| `Multicast.McastInterface.LeaveResult` | src/modules/network/network_wifi.c:188-203 | the lookup, remove, leave and notify steps leave the table as `LeaveSpec` says |
| `Bootstrap.SelectWorkload` | src/modules/network/network_wifi.c:272-284 | the selected workload is enabled and no workload earlier in the order HTTP client, HTTP GET, dumb HTTP server, HTTP server is; none is selected only when none is enabled |
| `Bootstrap.ConnectStored` | src/modules/network/network_wifi.c:41-57 | connect() is fatal exactly when there is no default interface or the stored-connect request returns nonzero; a missing interface is reported as such, before any request |
| `Bootstrap.WaitIsRunPrefix` | src/modules/network/network_wifi.c:268 | the wait ends in the state of the shortest prefix of the events that leaves a permit or raises fatal: opened with one permit taken, halted when fatal, or still waiting with the gate at 0 after every event; no shorter prefix left a permit or was fatal; the events it leaves for later are the rest of the sequence (`WaitRest`) |
| `Bootstrap.WaitOpensOnAddressAdd` | src/modules/network/network_wifi.c:266-268 | with successful publishes the wait opens exactly when some event is an address add to the IPv4 callback, and it never ends fatal |
| `Bootstrap.WorkloadDiscipline` | src/modules/network/network_wifi.c:266-284 | at most one workload runs, it is the selected one, and when the wait is compiled in (no CONFIG_SMF) a GateTaken step comes before it |
| `Bootstrap.WorkloadRunsIff` | src/modules/network/network_wifi.c:260-284 | a workload runs exactly when one is compiled in, connect() is not fatal and either CONFIG_SMF is set or the wait opened |
| `Bootstrap.CredentialRequestIff` | src/modules/network/network_wifi.c:229-251 | a connect request is issued exactly when CONFIG_BT is set and the scanned record has ssid_len > 0 |
| `Bootstrap.CredentialConnectNeverFatal` | src/modules/network/network_wifi.c:250-256 | whatever the stored-credential connect request returns, the task leaves the same state and ends with the same step |
| `Bootstrap.StaticConnectFailureStops` | src/modules/network/network_wifi.c:260-264 | a failing connect() raises the fatal flag, ends the trace with the fatal step naming the cause, and neither the gate take nor any workload follows |
| `Bootstrap.WaitThenRest` | src/modules/network/network_wifi.c:96-124 | waiting on the gate and then handling the events it left publishes the same statuses, reaches the same fatal outcome and keeps the same registrations as handling every event in order; only the taken permit differs |
| `Bootstrap.TaskHandlesEveryEvent` | src/modules/network/network_wifi.c:264-285 | when connect() does not fail, the task, with or without CONFIG_SMF, ends with the statuses and the fatal outcome of every event handled in order after registration, including events after the gate opened |
| `Bootstrap.FatalIff` | src/modules/network/network_wifi.c:119-123 | from a non-fatal start, the task ends fatal exactly when connect() fails or some event's publish fails in a registered callback, before or after the gate opened, with or without CONFIG_SMF |
| `Bootstrap.EmptyStoreGoesStraightToWait` | src/modules/network/network_wifi.c:221-270 | with CONFIG_BT and an empty store no request is made; registration is followed directly by the wait; one address add opens it, publishes CONNECTED and leaves the gate at 0 |
| `NetworkWifi.NetworkContext.constructor` | src/modules/network/network_wifi.c:22 | the module boots with the gate at 0 and limit 1, nothing published, nothing registered, not fatal |
| `NetworkWifi.NetworkContext.PublishStatus` | src/modules/network/network_wifi.c:89-93 | a zero publish result appends the status; any other raises the fatal flag |
| `NetworkWifi.NetworkContext.WifiMgmtEventHandler` | src/modules/network/network_wifi.c:62-94 | changes the state exactly as `Handle` does for the link callback |
| `NetworkWifi.NetworkContext.Ipv4MgmtEventHandler` | src/modules/network/network_wifi.c:96-124 | changes the state, gate included, exactly as `Handle` does for the IPv4 callback |
| `NetworkWifi.NetworkContext.Ipv4MulticastEventHandler` | src/modules/network/network_wifi.c:126-153 | changes the state exactly as `Handle` does for the multicast callback |
| `NetworkWifi.NetworkContext.Deliver` | src/modules/network/network_wifi.c:210-218 | an event handed to a registered callback runs its handler; one for an unregistered callback changes nothing (`Step`) |
| `NetworkWifi.NetworkContext.Connect` | src/modules/network/network_wifi.c:41-57 | returns `ConnectStored`'s verdict and raises the fatal flag exactly when that verdict is a failure |
| `NetworkWifi.NetworkContext.RegisterCallbacks` | src/modules/network/network_wifi.c:210-219 | registers the link and IPv4 callbacks, plus the multicast one under UDP_MULTICAST_DISCOVERY |
| `NetworkWifi.NetworkContext.WaitForGate` | src/modules/network/network_wifi.c:266-270 | handles the events until a permit is there and takes it, or stops at a fatal error or when the events run out, as `Wait` says, and returns the events still to be delivered, as `WaitRest` says |
| `NetworkWifi.NetworkContext.DeliverAll` | src/modules/network/network_wifi.c:96-152 | events nothing waits for (all of them under CONFIG_SMF, those after the gate opened otherwise) reach the registered callbacks in order until a fatal error, ending in the state `Run` gives |
| `NetworkWifi.NetworkContext.NetworkTask` | src/modules/network/network_wifi.c:208-287 | produces exactly the trace and state of `RunNetworkTask`, which the Bootstrap lemmas describe |
| `NetworkWifi.ApplyStoredCredential` | src/modules/network/network_wifi.c:221-258 | the CONFIG_BT block issues a request exactly as `CredentialSteps` says: a zeroed slot, the scan, then a request only for a record with an SSID |
| `NetworkWifi.Boot` | src/modules/network/network_wifi.c:289-291 | a boot with the wait compiled in and successful publishes runs a workload exactly when one is compiled in, connect() succeeds and an address add arrives; the module ends fatal exactly when connect() failed |

## Findings

| source | as written | input that shows it | evidently intended | confidence | as-written member | corrected member |
|---|---|---|---|---|---|---|
| src/modules/network/network_wifi.c:180 | `net_ipv4_multicast_join` and `net_ipv4_multicast_leave` (line 204) return the local `ret` on success, but `ret` is never assigned | a join of a group that is absent from a table with room: the function succeeds and returns an indeterminate int, which may equal -ENOMEM | return 0 on success | high (by reading; not executed) | `Multicast.SuccessIndistinguishableAsWritten` (over `Multicast.ReturnCodeAsWritten`) | `Multicast.ReturnCode`, with `Multicast.ReturnCodeInjective`; `Multicast.McastInterface.Join` and `Leave` return it |

## Behaviour of the code worth knowing

- The gate is given on every address add. After `network_task` has taken the permit, a
  later address add makes the count 1 again. What the code guarantees
  is the bound: the count stays in [0, 1] (`RunGateBounded`).
- Leave checks only whether the address is in the table; whether it is joined plays no part. An entry
  that is present but not joined is removed, and a LEAVE is notified for it (`LeaveSpec`).
- When the store yields no credential, nothing is logged. The task goes straight on to
  connect() or to the wait.
- An out-of-memory join returns -ENOMEM and is not fatal. Neither multicast function has a
  caller in this file.

## Left out

- Concurrency of event delivery with `network_task`. Events are handled in the order given: while the task waits on the gate, and the rest after the gate opened (under CONFIG_SMF, all of them after the task has started its workload). Events arriving during the credential phase or the settle delays at lines 226 and 262 are treated as if they arrived at the wait. Events after the gate opened are handled in order, but how they interleave with the delay at line 269 and with the workload is not modelled.
- `NetworkWifi.NetworkContext.WaitForGate`: the source blocks forever on the gate, but the model stops and reports `Blocked` once the given events run out.
- The `k_sleep` settle delays (lines 226, 262, 269) and all logging, except the closing `LOG_INF` at line 285, which is kept as the trace step `InitFinished` to mark the end of the task.
- What SEND_FATAL_ERROR does beyond being terminal. Its macro is not part of this model.
- zbus internals: delivery to subscribers and the one-second timeout. Only the publish call's result is modelled.
- The event masks (lines 35, 212-217) that decide which event codes reach which callback. Any event may reach a registered callback, and that is why each handler's default branch is modelled.
- `net_if_mcast_monitor` (lines 175, 199), a foreign call with no effect on the table or the notices.
- The internals of the interface's address table. Lookup is by address on that one interface. An add fails only when the table is full. A failed remove is an input (`removeFails`): after a successful lookup on the same interface it can only happen through a concurrent removal.
- A failing credential lookup (line 28), which would copy an uninitialised record. The store's record is taken as given.
- The workloads themselves (`http_client_example` and the others) and the headers `http_server.h`, `http_client.h`, `ca_certificate.h`, which hold only constants, declarations and certificate data.
- The numeric values of Zephyr constants that are not defined in this repository are taken from Zephyr's headers: WIFI_SECURITY_TYPE_NONE = 0, WIFI_CREDENTIALS_FLAG_5GHz = bit 2, WIFI_CHANNEL_ANY = 255, and the errno values EALREADY, ENOMEM, ENOENT and EINVAL.
- `k_sem_give` handing the permit straight to a waiting thread. In the sequential model the count is raised and then taken, which has the same effect.
- The event-code registration with the callback structures themselves (`net_mgmt_init_event_callback`). Registration is modelled as a set of callbacks.
