# Local-network device discovery: a Dafny model

This project models the discovery core of an Android app that finds devices on
the local network over multicast DNS and keeps a table of them. It has four
parts, one Dafny module each.

- **`DeviceDao`** (`device_dao.dfy`) is the `devices` table. It is a map from
  `ipAddress` (the primary key) to the row, with the DAO's queries: lookup,
  REPLACE insert of one row or a batch, update, status update,
  mark-all-offline, delete, delete-all, and the newest-first snapshot.
- **`NsdDiscovery`** (`nsd_discovery.dfy`) is the discovery manager.
  - One browse is started per configured service type. A type the platform
    rejects is skipped.
  - A per-collection seen map is keyed by `serviceName + "_" + serviceType`.
  - A newly found service is resolved into a device. A lost service is
    forgotten.
  - Stopping releases every recorded listener.
  - Platform callbacks are data, and each handler is a pure step returning the
    new seen map, the resolve request and the emitted events.
- **`HomeViewModel`** (`home_view_model.dfy`) is the home screen's controller,
  written as a state machine folded over inputs.
  - The inputs are start, a platform callback, a stream event, a stream
    failure, stop, the timeout firing, and refresh.
  - It keeps the run's seen devices in insertion order, the table, the
    manager's listeners, the published `DiscoveryState`, and the history of
    registered and released listeners.
  - `Inv` is the controller's invariant. It is proved preserved by every input
    sequence.
- **`DeviceAdapter`** (`device_adapter.dfy`) is the list row's service-type
  label (the same transform is also on the detail screen) and the list
  differ's identity and equality.

`devices.dfy` holds the row type. `wrappers.dfy` holds `Option`.

The table's invariant is `DeviceDao.Wf`: every row is stored under its own
`ipAddress`. A SQL table with a primary key cannot hold anything else, so the
snapshot query takes `Wf` as a precondition. Every DAO write and every
controller input is proved to preserve it.

Three behaviours of the code worth noting:

- The code publishes `Discovering` as soon as a run starts, and again on the
  stream's `DiscoveryStarted`.
- The manager's listener list belongs to the manager, not to one collection.
  A collection appends to it and only a stop empties it.
- A failure of the stream ends the run but issues no stop call. Inside the
  stream, the manager's stop runs only in the collection's close handler,
  and the `.catch` handler only publishes the error. A failure can only come
  from the collection's block before it reaches that handler. Outside the
  stream, the manager is stopped by the controller's own stop, which the
  timeout, a refresh and `onCleared` call. After a failure the
  listeners stay pending. The timeout is not cancelled on that path, so
  it stays armed, and when it fires it releases them and publishes `Idle`.
  A start before then appends the new run's listeners to the pending ones,
  and the next stop releases them all. `HomeViewModel.Inv` shows that a
  listener is pending only while a run is active or the timeout is armed.

## Model

| member | source | states |
|---|---|---|
| DeviceDao.GetDeviceByIp | app/src/main/java/com/ustdemo/assignment/data/local/dao/DeviceDao.kt:20-21 | the lookup finds a row exactly when the key is present, returns that row, and in a well-formed table the row carries the key looked up |
| DeviceDao.InsertDevice | app/src/main/java/com/ustdemo/assignment/data/local/dao/DeviceDao.kt:23-24 | REPLACE insert: the key set gains the row's ip, a lookup of that ip returns exactly the inserted row, every other row is unchanged, and the table stays keyed by ip |
| DeviceDao.InsertDevices | app/src/main/java/com/ustdemo/assignment/data/local/dao/DeviceDao.kt:26-27 | batch REPLACE insert: the keys become the old keys plus the batch's ips, rows whose key is not in the batch are kept, for each key the last row of the batch with it wins, and the table stays keyed by ip |
| DeviceDao.InsertDevicesSingle | app/src/main/java/com/ustdemo/assignment/data/local/dao/DeviceDao.kt:23-27 | a one-row batch insert is the single-row insert |
| DeviceDao.UpdateDevice | app/src/main/java/com/ustdemo/assignment/data/local/dao/DeviceDao.kt:29-30 | `@Update` overwrites the row with the same key and changes nothing else; when no row has that key the table is unchanged, and no key is added |
| DeviceDao.InsertThenUpdate | app/src/main/java/com/ustdemo/assignment/data/local/dao/DeviceDao.kt:23-30 | an update right after an insert with the same key gives the table that inserting the updated row would |
| DeviceDao.UpdateDeviceStatus | app/src/main/java/com/ustdemo/assignment/data/local/dao/DeviceDao.kt:32-33 | sets `isOnline` on the row for that ip only, keeping its name, type, port and timestamp; other rows and the key set are unchanged; a missing ip is a no-op |
| DeviceDao.InsertThenStatus | app/src/main/java/com/ustdemo/assignment/data/local/dao/DeviceDao.kt:23-33 | after inserting a row, a status update of its ip yields that row with only the status replaced |
| DeviceDao.MarkAllDevicesOffline | app/src/main/java/com/ustdemo/assignment/data/local/dao/DeviceDao.kt:35-36 | every row ends offline with all other columns kept, and the key set is unchanged |
| DeviceDao.MarkAllDevicesOfflineIdempotent | app/src/main/java/com/ustdemo/assignment/data/local/dao/DeviceDao.kt:35-36 | marking everything offline twice is marking it once |
| DeviceDao.DeleteDevice | app/src/main/java/com/ustdemo/assignment/data/local/dao/DeviceDao.kt:38-39 | exactly that key is removed and the remaining rows are untouched |
| DeviceDao.InsertThenDelete | app/src/main/java/com/ustdemo/assignment/data/local/dao/DeviceDao.kt:23-39 | deleting a just-inserted key leaves the table as deleting it without the insert would |
| DeviceDao.DeleteAllDevices | app/src/main/java/com/ustdemo/assignment/data/local/dao/DeviceDao.kt:41-42 | afterwards no ip finds a row |
| DeviceDao.ApplyWritesKeepsWf | app/src/main/java/com/ustdemo/assignment/data/local/dao/DeviceDao.kt:23-42 | whatever sequence of inserts, batch inserts, updates, status updates, mark-offline and deletes is applied, the table never holds two rows with the same ipAddress |
| DeviceDao.InsertionPoint | app/src/main/java/com/ustdemo/assignment/data/local/dao/DeviceDao.kt:14-18 | in a newest-first list, the position for a new row lies after every strictly newer row and before every row that is not newer |
| DeviceDao.InsertByRecencyFacts | app/src/main/java/com/ustdemo/assignment/data/local/dao/DeviceDao.kt:14-18 | placing a row at its insertion point keeps the list newest first, adds exactly that row, and shifts the later rows by one |
| DeviceDao.GetAllDevices | app/src/main/java/com/ustdemo/assignment/data/local/dao/DeviceDao.kt:14-18 | the snapshot is ordered by `lastDiscoveredAt` non-increasing and is a permutation of the table's rows: one entry per row, each equal to its stored row, no ip twice, every row present |
| NsdDiscovery.OnServiceFound | app/src/main/java/com/ustdemo/assignment/discovery/NsdDiscoveryManager.kt:60-65 | a found service is resolved exactly when its key is not yet in the seen map, and the first sighting records the key; an already seen key changes nothing; nothing is emitted |
| NsdDiscovery.ServiceKey | app/src/main/java/com/ustdemo/assignment/discovery/NsdDiscoveryManager.kt:62 | the dedup key is the service name, then `_`, then the service type |
| NsdDiscovery.ServiceKeySameType | app/src/main/java/com/ustdemo/assignment/discovery/NsdDiscoveryManager.kt:62 | two services of the same type with the same key are the same service, so a browse never suppresses a service because of another of its own type |
| NsdDiscovery.ResolvedDevice | app/src/main/java/com/ustdemo/assignment/discovery/NsdDiscoveryManager.kt:66-73 | the resolved device carries the host address (empty when there is none), the resolved name, type and port, is online, and is stamped with the clock reading |
| NsdDiscovery.OnServiceResolved | app/src/main/java/com/ustdemo/assignment/discovery/NsdDiscoveryManager.kt:66-76 | a resolution emits one `DeviceFound` exactly when the host address is present and non-empty, and that device is online with the resolved name, type, port and timestamp |
| NsdDiscovery.OnServiceLost | app/src/main/java/com/ustdemo/assignment/discovery/NsdDiscoveryManager.kt:81-86 | a loss removes its key from the seen map, keeps the other entries, resolves nothing, and always emits `DeviceLost(serviceName)`, even for a key never seen |
| NsdDiscovery.OnCallback | app/src/main/java/com/ustdemo/assignment/discovery/NsdDiscoveryManager.kt:60-86 | resolutions and failed resolutions leave the seen map alone; a failed resolution is swallowed; only `DeviceFound` and `DeviceLost` are ever emitted by a callback |
| NsdDiscovery.RepeatsOfSeenAreSuppressed | app/src/main/java/com/ustdemo/assignment/discovery/NsdDiscoveryManager.kt:62-63 | any number of repeated found callbacks for a seen key resolve nothing, emit nothing and leave the seen map as it was |
| NsdDiscovery.RepeatedFoundResolvesOnce | app/src/main/java/com/ustdemo/assignment/discovery/NsdDiscoveryManager.kt:62-65 | a new service announced any positive number of times is resolved exactly once, emits nothing by itself, and ends recorded in the seen map |
| NsdDiscovery.FoundAgainAfterLost | app/src/main/java/com/ustdemo/assignment/discovery/NsdDiscoveryManager.kt:60-86 | found, lost and found again resolves the service a second time instead of suppressing it |
| NsdDiscovery.Browse | app/src/main/java/com/ustdemo/assignment/discovery/NsdDiscoveryManager.kt:54-107 | each configured type gets exactly as many listeners as it occurs in the list if the platform accepts it and none if it rejects it; a rejected type does not stop the remaining types |
| NsdDiscovery.BrowseConcat | app/src/main/java/com/ustdemo/assignment/discovery/NsdDiscoveryManager.kt:54-107 | the attempts are made in list order: browsing two lists in turn records the first list's listeners and then the second's |
| NsdDiscovery.BrowseOne | app/src/main/java/com/ustdemo/assignment/discovery/NsdDiscoveryManager.kt:101-106 | a single type gets one listener exactly when the platform accepts it |
| NsdDiscovery.DiscoverDevices | app/src/main/java/com/ustdemo/assignment/discovery/NsdDiscoveryManager.kt:51-109 | a collection starts with an empty seen map, keeps the pending listeners, appends one listener per accepted attempt (counted per type) and emits exactly one `DiscoveryStarted` |
| NsdDiscovery.StopDiscovery | app/src/main/java/com/ustdemo/assignment/discovery/NsdDiscoveryManager.kt:135-144 | one stop call per recorded listener, in order, and then the list is empty |
| NsdDiscovery.StopDiscoveryTwice | app/src/main/java/com/ustdemo/assignment/discovery/NsdDiscoveryManager.kt:135-144 | a second stop issues no stop calls and changes nothing |
| HomeViewModel.FindByName | app/src/main/java/com/ustdemo/assignment/ui/home/HomeViewModel.kt:127 | the search by name returns the first seen device with that name, or nothing when no seen device has it |
| HomeViewModel.WithoutIp | app/src/main/java/com/ustdemo/assignment/ui/home/HomeViewModel.kt:130 | removing an address from the seen devices keeps every other device, forgets that address and keeps addresses distinct |
| HomeViewModel.WithoutIpKeepsOrder | app/src/main/java/com/ustdemo/assignment/ui/home/HomeViewModel.kt:127-130 | removing an address keeps the other seen devices in insertion order: any two of them stay in the order they were in |
| HomeViewModel.WithoutIpKeepsFirstMatch | app/src/main/java/com/ustdemo/assignment/ui/home/HomeViewModel.kt:127-130 | after removing an address, a search by name finds the same device as before, unless the device it found had that address |
| HomeViewModel.HandleDeviceFound | app/src/main/java/com/ustdemo/assignment/ui/home/HomeViewModel.kt:106-123 | an address already seen in this run changes nothing; a new one is recorded, and then its existing row only flips online, keeping its other columns, or else the device is inserted; other rows are unchanged; the status becomes `DeviceFound(d)`; no other part of the controller changes |
| HomeViewModel.HandleDeviceLost | app/src/main/java/com/ustdemo/assignment/ui/home/HomeViewModel.kt:125-132 | a name not seen in this run changes nothing; otherwise exactly the first seen device with that name goes offline, its other columns kept, and its address is forgotten; the other seen devices keep their insertion order, so a later search by any name finds the same device unless it had that address; other rows, the key set and the status are unchanged |
| HomeViewModel.ApplyEvent | app/src/main/java/com/ustdemo/assignment/ui/home/HomeViewModel.kt:87-101 | `DiscoveryStarted` only publishes `Discovering`; `Error(m)` only publishes `Error(m)` and the run goes on; no event touches the run, the timeout or the listeners |
| HomeViewModel.ApplyEvents | app/src/main/java/com/ustdemo/assignment/ui/home/HomeViewModel.kt:87-102 | applying a sequence of stream events never ends the run, disarms the timeout or touches the listeners |
| HomeViewModel.StartDiscovery | app/src/main/java/com/ustdemo/assignment/ui/home/HomeViewModel.kt:64-104 | while a run is active, start changes nothing; otherwise it arms the timeout, marks every row offline keeping its other columns, clears the run's seen devices and the seen map, registers a listener per accepted type and publishes `Discovering` |
| HomeViewModel.StopDiscovery | app/src/main/java/com/ustdemo/assignment/ui/home/HomeViewModel.kt:134-139 | the run ends, the timeout is disarmed, every pending listener is released once, the status becomes `Idle`, and the table and seen devices are untouched |
| HomeViewModel.Timeout | app/src/main/java/com/ustdemo/assignment/ui/home/HomeViewModel.kt:70-74 | an armed timeout acts exactly as stop; a disarmed one does nothing |
| HomeViewModel.StreamFailed | app/src/main/java/com/ustdemo/assignment/ui/home/HomeViewModel.kt:83-86 | a failure of the stream publishes `Error` with its message or "Discovery failed" and ends the run; no stop call is issued, so the listeners and the release history are unchanged; the table, the seen devices and the armed timeout are kept |
| HomeViewModel.RefreshDevices | app/src/main/java/com/ustdemo/assignment/ui/home/HomeViewModel.kt:141-144 | refresh always begins a new run: pending listeners are released, every row goes offline, the seen devices are cleared, new listeners are registered and `Discovering` is published |
| HomeViewModel.Apply | app/src/main/java/com/ustdemo/assignment/ui/home/HomeViewModel.kt:83-102 | callbacks, events and failures arriving with no active run are ignored; an `Error` event during a run keeps the run and the table and publishes the error |
| HomeViewModel.ApplyGrows | app/src/main/java/com/ustdemo/assignment/ui/home/HomeViewModel.kt:64-144 | no input removes a row from the table, and the histories of registered and released listeners are only extended |
| HomeViewModel.Run | app/src/main/java/com/ustdemo/assignment/ui/home/HomeViewModel.kt:64-144 | over any input sequence, every row of the table survives and the listener histories only grow; the device list accumulated in the table is never discarded, on error or otherwise |
| HomeViewModel.Initial | app/src/main/java/com/ustdemo/assignment/ui/home/HomeViewModel.kt:38-49 | the constructed controller has no run, no armed timeout and no published status, over the cached table, browsing the configured types with no listener |
| HomeViewModel.InitialInv | app/src/main/java/com/ustdemo/assignment/ui/home/HomeViewModel.kt:38-40 | the freshly constructed controller over any table keyed by ip satisfies the invariant |
| HomeViewModel.HandleDeviceFoundInv | app/src/main/java/com/ustdemo/assignment/ui/home/HomeViewModel.kt:106-123 | a found device keeps the table keyed by ip and the seen devices distinct, each with an online row if it was announced online |
| HomeViewModel.HandleDeviceLostInv | app/src/main/java/com/ustdemo/assignment/ui/home/HomeViewModel.kt:125-132 | a lost name keeps the invariant |
| HomeViewModel.ApplyEventsInv | app/src/main/java/com/ustdemo/assignment/ui/home/HomeViewModel.kt:87-102 | any sequence of stream events keeps the invariant |
| HomeViewModel.StartDiscoveryInv | app/src/main/java/com/ustdemo/assignment/ui/home/HomeViewModel.kt:64-104 | start keeps the invariant, so a run is always bounded by an armed timeout and every registered listener is pending or released |
| HomeViewModel.StopDiscoveryInv | app/src/main/java/com/ustdemo/assignment/ui/home/HomeViewModel.kt:134-139 | stop keeps the invariant: registered listeners are exactly the released ones |
| HomeViewModel.StreamFailedInv | app/src/main/java/com/ustdemo/assignment/ui/home/HomeViewModel.kt:83-86 | a stream failure keeps the invariant: its pending listeners are covered by the timeout, which stays armed |
| HomeViewModel.ApplyInv | app/src/main/java/com/ustdemo/assignment/ui/home/HomeViewModel.kt:64-144 | every single input keeps the invariant |
| HomeViewModel.RunInv | app/src/main/java/com/ustdemo/assignment/ui/home/HomeViewModel.kt:64-144 | every input sequence keeps the invariant: the table never holds two rows for one address, no listener is released twice, and a listener is pending only while a run is active or the timeout that will stop it is armed |
| HomeViewModel.FoundThenLostGoesOffline | app/src/main/java/com/ustdemo/assignment/ui/home/HomeViewModel.kt:106-131 | with no other seen device of that name, found then lost leaves the device's row offline and its address forgotten, so a later find of that address is applied again, turning the row online and publishing it |
| HomeViewModel.FoundCallback | app/src/main/java/com/ustdemo/assignment/discovery/NsdDiscoveryManager.kt:60-65 | during a run, a found callback only updates the session's seen map |
| HomeViewModel.ResolvedCallback | app/src/main/java/com/ustdemo/assignment/discovery/NsdDiscoveryManager.kt:66-76 | during a run, a resolution with a host address is handled as a found device with the resolved fields, online |
| HomeViewModel.LostCallback | app/src/main/java/com/ustdemo/assignment/discovery/NsdDiscoveryManager.kt:81-86 | during a run, a lost callback forgets the key and is handled as the loss of the service's name |
| HomeViewModel.StopDiscoveryIdempotent | app/src/main/java/com/ustdemo/assignment/ui/home/HomeViewModel.kt:134-139 | stopping twice is stopping once, so the second stop releases nothing |
| HomeViewModel.TimeoutAfterStopIsNoOp | app/src/main/java/com/ustdemo/assignment/ui/home/HomeViewModel.kt:70-139 | a timeout after a stop does nothing, because stop disarms it |
| HomeViewModel.StartThenTimeout | app/src/main/java/com/ustdemo/assignment/ui/home/HomeViewModel.kt:64-74 | with nothing arriving, a started run times out `Idle`; every listener it registered, and any still pending from a failed run, is released exactly once |
| HomeViewModel.FailureThenTimeout | app/src/main/java/com/ustdemo/assignment/ui/home/HomeViewModel.kt:70-86 | after a stream failure the listeners stay pending and nothing is released; the still-armed timeout then releases each of them once, leaves none pending and publishes `Idle` |
| HomeViewModel.FirstServiceFound | app/src/main/java/com/ustdemo/assignment/ui/home/HomeViewModel.kt:64-123 | starting and then finding and resolving `dev1` at 10.0.0.1 records it and leaves its row online |
| HomeViewModel.SecondServiceThenLoss | app/src/main/java/com/ustdemo/assignment/ui/home/HomeViewModel.kt:106-132 | then finding `dev2` at 10.0.0.2 and losing `dev1` leaves `dev1` offline and `dev2` online |
| HomeViewModel.TwoServicesOneLost | app/src/main/java/com/ustdemo/assignment/ui/home/HomeViewModel.kt:64-132 | the two-type scenario as one input sequence: `dev1` ends offline, `dev2` online, and the run still active |
| DeviceAdapter.RemoveAll | app/src/main/java/com/ustdemo/assignment/ui/home/DeviceAdapter.kt:47 | Kotlin's `replace(pat, "")` never lengthens the string and leaves no occurrence of a one-character pattern |
| DeviceAdapter.RemoveUnderscoreIsFilter | app/src/main/java/com/ustdemo/assignment/ui/home/DeviceAdapter.kt:47 | removing `"_"` is the same as filtering out every underscore and keeping the other characters in order |
| DeviceAdapter.ServiceLabel | app/src/main/java/com/ustdemo/assignment/ui/home/DeviceAdapter.kt:47 | the label contains no `'_'` and is never longer than the service type |
| DeviceAdapter.DetailServiceLabel | app/src/main/java/com/ustdemo/assignment/ui/detail/DetailFragment.kt:71 | the detail screen shows the same label as the list for a present type, and `"-"` for a missing one |
| DeviceAdapter.AreItemsTheSame | app/src/main/java/com/ustdemo/assignment/ui/home/DeviceAdapter.kt:69-71 | two rows are the same list item exactly when their ipAddress is equal |
| DeviceAdapter.AreContentsTheSame | app/src/main/java/com/ustdemo/assignment/ui/home/DeviceAdapter.kt:73-75 | two rows have the same contents exactly when they are equal in every column |
| DeviceAdapter.RemoveAllNoOccurrence | app/src/main/java/com/ustdemo/assignment/ui/home/DeviceAdapter.kt:47 | removing a pattern that does not occur changes nothing |
| DeviceAdapter.TcpLabel | app/src/main/java/com/ustdemo/assignment/ui/home/DeviceAdapter.kt:47 | the label of a TCP type `"_<name>._tcp."` is `<name>`, for any name without underscores |
| DeviceAdapter.UdpLabel | app/src/main/java/com/ustdemo/assignment/ui/home/DeviceAdapter.kt:47 | `"._udp."` is not stripped: the label of `"_<name>._udp."` is `"<name>.udp."`, as for `"_sleep-proxy._udp."` |
| DeviceAdapter.ContentsSameImpliesItemsSame | app/src/main/java/com/ustdemo/assignment/ui/home/DeviceAdapter.kt:69-75 | rows with the same contents are the same item |
| DeviceAdapter.StatusChangeIsSameItemNewContents | app/src/main/java/com/ustdemo/assignment/ui/home/DeviceAdapter.kt:69-75 | a row whose status the table changes stays the same item with new contents |
| DeviceAdapter.SnapshotItemsAreUnique | app/src/main/java/com/ustdemo/assignment/ui/home/DeviceAdapter.kt:69-71 | in a snapshot with distinct ips, two positions are the same item exactly when they are the same position |

## Left out

- The Android NSD objects are not modelled: browse and resolve calls, listener objects and the shared `resolveListener` field that each resolve overwrites. Callbacks are inputs, and a listener is named by its service type.
- Resolve requests are returned by the manager's steps but are not fed back by the controller. The platform's answer arrives as a separate `ServiceResolved` or `ResolveFailed` input, in any order.
- Coroutine jobs, `callbackFlow`, `awaitClose`, the `delay` timer and LiveData are not modelled. A run is a flag, the timeout is an armed flag plus a `TimeoutFired` input, and the 10-second duration is not modelled.
- The model orders inputs one at a time, so the concurrency between platform threads and the collector is not modelled. Callbacks and events reach the controller only while its run is active.
- Lost events are not modelled. The manager sends each event with `trySend` (NsdDiscoveryManager.kt lines 75, 85 and 109) and ignores the result, so when the stream's buffer (64 events by default) is full the event is dropped. The model delivers every event. `HomeViewModel.LostCallback`, `HomeViewModel.ResolvedCallback` and `HomeViewModel.FoundThenLostGoesOffline` therefore assume no event was dropped. In the code, a dropped `DeviceLost` leaves the row online and its ip still seen, after the manager has already forgotten the key, so a later `DeviceFound` for that ip is ignored.
- `System.currentTimeMillis` is a parameter of the resolved callback.
- Kotlin's `Int` port and `Long` timestamp are unbounded integers here. Both are only copied and compared.
- The live `Flow` of `getAllDevices` and the `devices` LiveData are modelled as one snapshot of the current table. `getAllDevicesSync` is the same query.
- The snapshot's order among rows with equal `lastDiscoveredAt` is left open, as SQL leaves it.
- The Room engine, `AppDatabase`, `DatabaseModule` and the `DeviceRepository` delegation layer are not modelled.
- Authentication, the user name, logout and the public-IP lookups are not modelled.
- `NetworkUtils`, dependency injection wiring and all view code are not modelled, except the label on both screens and the list differ's identity and equality (`DeviceDiffCallback`).
- HomeViewModel.HandleDeviceFound: a new device is inserted as given, so its row is online only if the device is. The manager always builds online devices (`NsdDiscovery.OnServiceResolved`), so the stream's devices always end online.
- `onCleared` is not a separate member. It calls stop, which is `HomeViewModel.StopDiscovery`.
- The composite seen-map key concatenates the name, `"_"` and the type. Within one type it tells services apart (`NsdDiscovery.ServiceKeySameType`). Across types, different pairs could in principle give the same key. The model keeps the key as the code builds it.
