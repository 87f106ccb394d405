/** The home screen's discovery controller: starts and stops runs, applies
    the discovery stream's events to the device table, and publishes a
    status. The controller is a state machine folded over an input
    sequence; the timeout and the stream's own failure are inputs. */
module HomeViewModel {
  import opened Wrappers
  import opened Devices
  import opened DeviceDao
  import NsdDiscovery

  /** The published status. */
  datatype DiscoveryState =
    | Idle
    | Discovering
    | DeviceFound(device: Device)
    | Error(message: string)

  /** The controller's state.
      - `runActive`: the collecting job is running.
      - `timeoutArmed`: the timeout job is pending.
      - `discovered`: the devices seen in this run, keyed by `ipAddress`, in
        insertion order (the order in which a search by name meets them).
      - `session`: the discovery manager's seen map for this collection.
      - `manager`: the manager's listeners not yet released.
      - `registered`, `released`: every browse listener ever recorded and
        every stop call ever issued, in order.
      - `status`: the last published status, `None` before the first. */
  datatype Controller = Controller(
    runActive: bool,
    timeoutArmed: bool,
    discovered: seq<Device>,
    session: NsdDiscovery.SeenMap,
    registry: Registry,
    manager: NsdDiscovery.Manager,
    registered: seq<string>,
    released: seq<string>,
    status: Option<DiscoveryState>)

  /** The controller as constructed, over whatever the table holds. */
  function Initial(registry: Registry): (c: Controller)
    ensures !c.runActive && !c.timeoutArmed && c.status == None
    ensures c.registry == registry && c.discovered == [] && c.session == map[]
    ensures c.manager.serviceTypes == NsdDiscovery.ServiceTypes && c.manager.listeners == []
    ensures c.registered == [] && c.released == []
  {
    Controller(false, false, [], map[], registry, NsdDiscovery.Manager(NsdDiscovery.ServiceTypes, []), [], [], None)
  }

  /** Some device of `seen` has address `ip`. */
  predicate Knows(seen: seq<Device>, ip: string)
  {
    exists i :: 0 <= i < |seen| && seen[i].ipAddress == ip
  }

  /** No two devices of `seen` share an address. */
  predicate DistinctIps(seen: seq<Device>)
  {
    forall i, j :: 0 <= i < j < |seen| ==> seen[i].ipAddress != seen[j].ipAddress
  }

  /** The position of the first device of `seen` named `name`. */
  function FindByName(seen: seq<Device>, name: string): (o: Option<nat>)
    ensures o.Some? ==> o.value < |seen| && seen[o.value].deviceName == name
    ensures o.Some? ==> forall j :: 0 <= j < o.value ==> seen[j].deviceName != name
    ensures o.None? ==> forall j :: 0 <= j < |seen| ==> seen[j].deviceName != name
    decreases |seen|
  {
    if |seen| == 0 then None
    else if seen[0].deviceName == name then Some(0)
    else
      match FindByName(seen[1..], name)
      case None => None
      case Some(i) => Some(i + 1)
  }

  /** `a` comes before `b` in `s`. */
  predicate Before(s: seq<Device>, a: Device, b: Device)
  {
    exists i, j :: 0 <= i < j < |s| && s[i] == a && s[j] == b
  }

  /** Every pair ordered in `s[1..]` is ordered in `s`. */
  lemma BeforeTail(s: seq<Device>, a: Device, b: Device)
    requires |s| > 0 && Before(s[1..], a, b)
    ensures Before(s, a, b)
  {
    var i, j :| 0 <= i < j < |s[1..]| && s[1..][i] == a && s[1..][j] == b;
    assert s[i + 1] == a && s[j + 1] == b;
  }

  /** `seen` with the entry for `ip` removed. */
  function WithoutIp(seen: seq<Device>, ip: string): (r: seq<Device>)
    ensures forall d :: d in r <==> d in seen && d.ipAddress != ip
    ensures DistinctIps(seen) ==> DistinctIps(r)
    ensures !Knows(r, ip)
    decreases |seen|
  {
    if |seen| == 0 then []
    else
      var rest := WithoutIp(seen[1..], ip);
      assert forall d :: d in seen <==> d == seen[0] || d in seen[1..];
      if seen[0].ipAddress == ip then rest
      else
        assert forall j :: 0 <= j < |rest| ==> rest[j] in seen[1..];
        assert DistinctIps(seen) ==> forall j :: 0 <= j < |seen[1..]| ==> seen[1..][j].ipAddress != seen[0].ipAddress;
        assert forall j :: 0 < j < |[seen[0]] + rest| ==> ([seen[0]] + rest)[j] == rest[j - 1];
        [seen[0]] + rest
  }

  /** Keeping the head of `s` in front of an order-preserving selection
      of its tail preserves order. */
  lemma BeforeKeptHead(s: seq<Device>, rest: seq<Device>, a: Device, b: Device)
    requires |s| > 0
    requires forall d :: d in rest ==> d in s[1..]
    requires forall x, y :: Before(rest, x, y) ==> Before(s[1..], x, y)
    requires Before([s[0]] + rest, a, b)
    ensures Before(s, a, b)
  {
    var r := [s[0]] + rest;
    var i, j :| 0 <= i < j < |r| && r[i] == a && r[j] == b;
    if i == 0 {
      assert rest[j - 1] == b;
      assert b in s[1..];
      var j' :| 0 <= j' < |s[1..]| && s[1..][j'] == b;
      assert s[0] == a && s[j' + 1] == b;
    } else {
      assert rest[i - 1] == a && rest[j - 1] == b;
      assert Before(rest, a, b);
      BeforeTail(s, a, b);
    }
  }

  /** Removing an address keeps the other devices in insertion order. */
  lemma {:induction false} WithoutIpKeepsOrder(seen: seq<Device>, ip: string)
    ensures forall a, b :: Before(WithoutIp(seen, ip), a, b) ==> Before(seen, a, b)
    decreases |seen|
  {
    if |seen| > 0 {
      var rest := WithoutIp(seen[1..], ip);
      WithoutIpKeepsOrder(seen[1..], ip);
      if seen[0].ipAddress == ip {
        forall a, b | Before(rest, a, b) ensures Before(seen, a, b) { BeforeTail(seen, a, b); }
      } else {
        forall a, b | Before([seen[0]] + rest, a, b) ensures Before(seen, a, b) {
          BeforeKeptHead(seen, rest, a, b);
        }
      }
    }
  }

  /** One step of `WithoutIp`. */
  lemma WithoutIpCons(seen: seq<Device>, ip: string)
    requires |seen| > 0
    ensures WithoutIp(seen, ip) ==
      if seen[0].ipAddress == ip then WithoutIp(seen[1..], ip) else [seen[0]] + WithoutIp(seen[1..], ip)
  {
  }

  /** A search by name past a head with another name. */
  lemma FindByNameCons(x: Device, s: seq<Device>, n: string)
    requires x.deviceName != n && FindByName(s, n).Some?
    ensures FindByName([x] + s, n) == Some(FindByName(s, n).value + 1)
  {
    var t := [x] + s;
    assert t[0] == x && t[1..] == s;
    assert |t| > 0 && t[0].deviceName != n;
    assert FindByName(t, n) == match FindByName(t[1..], n) case None => None case Some(i) => Some(i + 1);
  }

  /** Removing an address does not change what a search by name finds,
      unless the device found had that address. */
  lemma {:induction false} WithoutIpKeepsFirstMatch(seen: seq<Device>, ip: string, n: string)
    requires FindByName(seen, n).Some? && seen[FindByName(seen, n).value].ipAddress != ip
    ensures FindByName(WithoutIp(seen, ip), n).Some?
    ensures WithoutIp(seen, ip)[FindByName(WithoutIp(seen, ip), n).value] == seen[FindByName(seen, n).value]
    decreases |seen|
  {
    var rest := WithoutIp(seen[1..], ip);
    var r := WithoutIp(seen, ip);
    WithoutIpCons(seen, ip);
    if seen[0].deviceName == n {
      assert r == [seen[0]] + rest;
      assert FindByName(r, n) == Some(0);
    } else {
      var k := FindByName(seen[1..], n).value;
      assert seen == [seen[0]] + seen[1..];
      FindByNameCons(seen[0], seen[1..], n);
      assert seen[k + 1] == seen[1..][k];
      WithoutIpKeepsFirstMatch(seen[1..], ip, n);
      var m := FindByName(rest, n).value;
      if seen[0].ipAddress != ip {
        FindByNameCons(seen[0], rest, n);
        assert r[m + 1] == rest[m];
      }
    }
  }

  /** A found device is applied once per run: a new address is recorded,
      its row is switched online (keeping its other columns) or inserted,
      and the status announces it. A known address changes nothing. */
  function HandleDeviceFound(c: Controller, d: Device): (c': Controller)
    ensures Knows(c.discovered, d.ipAddress) ==> c' == c
    ensures !Knows(c.discovered, d.ipAddress) ==>
      && c'.discovered == c.discovered + [d]
      && c'.status == Some(DeviceFound(d))
      && c'.registry.Keys == c.registry.Keys + {d.ipAddress}
      && c'.registry[d.ipAddress].isOnline == (d.ipAddress in c.registry || d.isOnline)
      && (d.ipAddress in c.registry ==> SameRecord(c'.registry[d.ipAddress], c.registry[d.ipAddress]))
      && (d.ipAddress !in c.registry ==> c'.registry[d.ipAddress] == d)
      && (forall ip :: ip in c.registry && ip != d.ipAddress ==> c'.registry[ip] == c.registry[ip])
    ensures c'.(registry := c.registry, discovered := c.discovered, status := c.status) == c
  {
    if Knows(c.discovered, d.ipAddress) then c
    else
      var registry :=
        if GetDeviceByIp(c.registry, d.ipAddress).Some? then UpdateDeviceStatus(c.registry, d.ipAddress, true)
        else InsertDevice(c.registry, d);
      c.(discovered := c.discovered + [d], registry := registry, status := Some(DeviceFound(d)))
  }

  /** A lost name marks offline the first device of this run with that
      name and forgets its address; a name not seen in this run changes
      nothing. The status is left as it is. */
  function HandleDeviceLost(c: Controller, name: string): (c': Controller)
    ensures FindByName(c.discovered, name).None? ==> c' == c
    ensures FindByName(c.discovered, name).Some? ==>
      var ip := c.discovered[FindByName(c.discovered, name).value].ipAddress;
      && c'.registry.Keys == c.registry.Keys
      && (ip in c.registry ==> !c'.registry[ip].isOnline && SameRecord(c'.registry[ip], c.registry[ip]))
      && (forall k :: k in c.registry && k != ip ==> c'.registry[k] == c.registry[k])
      && (forall x :: x in c'.discovered <==> x in c.discovered && x.ipAddress != ip)
      && !Knows(c'.discovered, ip)
      && (forall a, b :: Before(c'.discovered, a, b) ==> Before(c.discovered, a, b))
      && (forall n :: FindByName(c.discovered, n).Some? && c.discovered[FindByName(c.discovered, n).value].ipAddress != ip ==>
            FindByName(c'.discovered, n).Some?
            && c'.discovered[FindByName(c'.discovered, n).value] == c.discovered[FindByName(c.discovered, n).value])
    ensures c'.(registry := c.registry, discovered := c.discovered) == c
  {
    match FindByName(c.discovered, name)
    case None => c
    case Some(i) =>
      var ip := c.discovered[i].ipAddress;
      WithoutIpKeepsOrder(c.discovered, ip);
      assert forall n :: FindByName(c.discovered, n).Some? && c.discovered[FindByName(c.discovered, n).value].ipAddress != ip ==>
               FindByName(WithoutIp(c.discovered, ip), n).Some?
               && WithoutIp(c.discovered, ip)[FindByName(WithoutIp(c.discovered, ip), n).value] == c.discovered[FindByName(c.discovered, n).value] by {
        forall n | FindByName(c.discovered, n).Some? && c.discovered[FindByName(c.discovered, n).value].ipAddress != ip
          ensures FindByName(WithoutIp(c.discovered, ip), n).Some?
          ensures WithoutIp(c.discovered, ip)[FindByName(WithoutIp(c.discovered, ip), n).value] == c.discovered[FindByName(c.discovered, n).value]
        {
          WithoutIpKeepsFirstMatch(c.discovered, ip, n);
        }
      }
      c.(registry := UpdateDeviceStatus(c.registry, ip, false), discovered := WithoutIp(c.discovered, ip))
  }

  /** The dispatch of one stream event. `Error` only changes the status;
      the run goes on. */
  function ApplyEvent(c: Controller, e: NsdDiscovery.DiscoveryEvent): (c': Controller)
    ensures e.DiscoveryStarted? ==> c' == c.(status := Some(Discovering))
    ensures e.Error? ==> c' == c.(status := Some(Error(e.message)))
    ensures c'.runActive == c.runActive && c'.timeoutArmed == c.timeoutArmed
    ensures c'.manager == c.manager && c'.registered == c.registered && c'.released == c.released
  {
    match e
    case DiscoveryStarted => c.(status := Some(Discovering))
    case DeviceFound(d) => HandleDeviceFound(c, d)
    case DeviceLost(name) => HandleDeviceLost(c, name)
    case Error(message) => c.(status := Some(Error(message)))
  }

  function ApplyEvents(c: Controller, es: seq<NsdDiscovery.DiscoveryEvent>): (c': Controller)
    ensures c'.runActive == c.runActive && c'.timeoutArmed == c.timeoutArmed
    ensures c.registry.Keys <= c'.registry.Keys
    ensures c'.manager == c.manager && c'.registered == c.registered && c'.released == c.released
    decreases |es|
  {
    if |es| == 0 then c else ApplyEvents(ApplyEvent(c, es[0]), es[1..])
  }

  lemma ApplyEventsSingle(c: Controller, e: NsdDiscovery.DiscoveryEvent)
    ensures ApplyEvents(c, [e]) == ApplyEvent(c, e)
  {
    assert [e][1..] == [];
  }

  /** Starting while a run is active does nothing. Otherwise the timeout is
      (re)armed, every row is marked offline, the run's seen devices are
      cleared, a new collection starts with a fresh seen map and registers
      a listener per accepted service type, and its `DiscoveryStarted`
      publishes `Discovering`. `rejected` is the set of service types the
      platform refuses to browse. */
  function StartDiscovery(c: Controller, rejected: set<string>): (c': Controller)
    ensures c.runActive ==> c' == c
    ensures !c.runActive ==>
      && c'.runActive && c'.timeoutArmed
      && c'.discovered == [] && c'.session == map[]
      && c'.status == Some(Discovering)
      && c'.registry == MarkAllDevicesOffline(c.registry)
      && c'.registry.Keys == c.registry.Keys
      && (forall ip :: ip in c.registry ==> !c'.registry[ip].isOnline && SameRecord(c'.registry[ip], c.registry[ip]))
      && c'.manager.listeners == c.manager.listeners + NsdDiscovery.Browse(c.manager.serviceTypes, rejected)
      && c'.registered == c.registered + NsdDiscovery.Browse(c.manager.serviceTypes, rejected)
      && c'.released == c.released
    ensures c'.manager.serviceTypes == c.manager.serviceTypes
  {
    if c.runActive then c
    else
      var col := NsdDiscovery.DiscoverDevices(c.manager, rejected);
      var base := c.(
        runActive := true,
        timeoutArmed := true,
        registry := MarkAllDevicesOffline(c.registry),
        discovered := [],
        status := Some(Discovering),
        session := col.seen,
        manager := col.manager,
        registered := c.registered + col.manager.listeners[|c.manager.listeners|..]);
      assert col.events == [NsdDiscovery.DiscoveryStarted];
      assert col.events[1..] == [];
      ApplyEvents(base, col.events)
  }

  /** Stopping (also the timeout's action) ends the run, disarms the
      timeout, releases every pending listener once and publishes `Idle`.
      It is harmless without a run. */
  function StopDiscovery(c: Controller): (c': Controller)
    ensures !c'.runActive && !c'.timeoutArmed
    ensures c'.manager == c.manager.(listeners := [])
    ensures c'.released == c.released + c.manager.listeners
    ensures c'.status == Some(Idle)
    ensures c'.registry == c.registry && c'.discovered == c.discovered && c'.session == c.session
    ensures c'.registered == c.registered
  {
    var (m, calls) := NsdDiscovery.StopDiscovery(c.manager);
    c.(runActive := false, timeoutArmed := false, manager := m, released := c.released + calls, status := Some(Idle))
  }

  /** The timeout fires only while it is armed, and then stops. */
  function Timeout(c: Controller): (c': Controller)
    ensures c.timeoutArmed ==> c' == StopDiscovery(c)
    ensures !c.timeoutArmed ==> c' == c
  {
    if c.timeoutArmed then StopDiscovery(c) else c
  }

  /** The stream itself failed: the error is published (with a default
      message when the failure has none) and the collection ends. A failure
      can only come from the collection's own block before it reaches its
      close handler, so no stop call is issued: the listeners stay pending
      until the timeout, which stays armed, stops them. */
  function StreamFailed(c: Controller, message: Option<string>): (c': Controller)
    ensures !c.runActive ==> c' == c
    ensures c.runActive ==>
      && !c'.runActive && c'.timeoutArmed == c.timeoutArmed
      && c'.status == Some(Error(if message.Some? then message.value else "Discovery failed"))
      && c'.manager == c.manager && c'.released == c.released && c'.registered == c.registered
      && c'.registry == c.registry && c'.discovered == c.discovered
  {
    if !c.runActive then c
    else c.(runActive := false, status := Some(Error(message.GetOr("Discovery failed"))))
  }

  /** `refreshDevices`: a stop followed by a start, which therefore always
      begins a new run. */
  function RefreshDevices(c: Controller, rejected: set<string>): (c': Controller)
    ensures c'.runActive && c'.timeoutArmed
    ensures c'.discovered == [] && c'.session == map[] && c'.status == Some(Discovering)
    ensures c'.registry.Keys == c.registry.Keys
    ensures forall ip :: ip in c.registry ==> !c'.registry[ip].isOnline && SameRecord(c'.registry[ip], c.registry[ip])
    ensures c'.released == c.released + c.manager.listeners
    ensures c'.manager.listeners == NsdDiscovery.Browse(c.manager.serviceTypes, rejected)
    ensures c'.registered == c.registered + NsdDiscovery.Browse(c.manager.serviceTypes, rejected)
  {
    StartDiscovery(StopDiscovery(c), rejected)
  }

  /** The inputs the controller reacts to. */
  datatype Input =
    | Start(rejected: set<string>)
    | Platform(callback: NsdDiscovery.Callback)
    | Deliver(event: NsdDiscovery.DiscoveryEvent)
    | Failure(message: Option<string>)
    | Stop
    | TimeoutFired
    | Refresh(rejected: set<string>)

  /** One input. Callbacks and events reach the controller only while its
      run collects the stream; a callback goes through the manager's
      handler and the events it emits are applied in order. */
  function Apply(c: Controller, i: Input): (c': Controller)
    ensures (i.Platform? || i.Deliver? || i.Failure?) && !c.runActive ==> c' == c
    ensures i.Deliver? && i.event.Error? && c.runActive ==>
              c'.runActive && c'.status == Some(Error(i.event.message)) && c'.registry == c.registry
  {
    match i
    case Start(rejected) => StartDiscovery(c, rejected)
    case Platform(cb) =>
      if !c.runActive then c
      else
        var st := NsdDiscovery.OnCallback(c.session, cb);
        ApplyEvents(c.(session := st.seen), st.events)
    case Deliver(e) => if !c.runActive then c else ApplyEvent(c, e)
    case Failure(message) => StreamFailed(c, message)
    case Stop => StopDiscovery(c)
    case TimeoutFired => Timeout(c)
    case Refresh(rejected) => RefreshDevices(c, rejected)
  }

  /** `c'` keeps every row of `c` and extends its listener history. */
  predicate Grows(c: Controller, c': Controller)
  {
    && c.registry.Keys <= c'.registry.Keys
    && |c.registered| <= |c'.registered| && c'.registered[..|c.registered|] == c.registered
    && |c.released| <= |c'.released| && c'.released[..|c.released|] == c.released
  }

  /** One input never removes a row and only extends the listener
      histories. */
  lemma ApplyGrows(c: Controller, i: Input)
    ensures Grows(c, Apply(c, i))
  {
  }

  /** Any input sequence: no row is ever removed from the table, and the
      histories of registered and released listeners only grow. */
  function Run(c: Controller, inputs: seq<Input>): (c': Controller)
    ensures Grows(c, c')
    decreases |inputs|
  {
    if |inputs| == 0 then c
    else
      ApplyGrows(c, inputs[0]);
      Run(Apply(c, inputs[0]), inputs[1..])
  }

  /** What every reachable controller satisfies:
      - the table is keyed by address;
      - the run's seen devices have distinct addresses, each with a row,
        online whenever the announced device was;
      - a listener is pending only while a run is active or the timeout
        that will stop it is armed;
      - an active run is bounded by an armed timeout;
      - every listener ever registered has been released exactly once or
        is still pending, in registration order. */
  predicate Inv(c: Controller)
  {
    && Wf(c.registry)
    && DistinctIps(c.discovered)
    && (forall i :: 0 <= i < |c.discovered| ==> c.discovered[i].ipAddress in c.registry)
    && (forall i :: 0 <= i < |c.discovered| && c.discovered[i].isOnline ==> c.registry[c.discovered[i].ipAddress].isOnline)
    && (!c.runActive && !c.timeoutArmed ==> c.manager.listeners == [])
    && (c.runActive ==> c.timeoutArmed)
    && c.registered == c.released + c.manager.listeners
  }

  lemma InitialInv(registry: Registry)
    requires Wf(registry)
    ensures Inv(Initial(registry))
  {
  }

  lemma HandleDeviceFoundInv(c: Controller, d: Device)
    requires Inv(c)
    ensures Inv(HandleDeviceFound(c, d))
  {
    var c' := HandleDeviceFound(c, d);
    if !Knows(c.discovered, d.ipAddress) {
      assert forall i :: 0 <= i < |c.discovered| ==> c'.discovered[i] == c.discovered[i];
      assert c'.discovered[|c.discovered|] == d;
    }
  }

  lemma HandleDeviceLostInv(c: Controller, name: string)
    requires Inv(c)
    ensures Inv(HandleDeviceLost(c, name))
  {
    var c' := HandleDeviceLost(c, name);
    if FindByName(c.discovered, name).Some? {
      forall i | 0 <= i < |c'.discovered|
        ensures c'.discovered[i].ipAddress in c'.registry
        ensures c'.discovered[i].isOnline ==> c'.registry[c'.discovered[i].ipAddress].isOnline
      {
        var x := c'.discovered[i];
        assert x in c.discovered;
      }
    }
  }

  lemma {:induction false} ApplyEventsInv(c: Controller, es: seq<NsdDiscovery.DiscoveryEvent>)
    requires Inv(c)
    ensures Inv(ApplyEvents(c, es))
    decreases |es|
  {
    if |es| > 0 {
      match es[0] {
        case DiscoveryStarted =>
        case DeviceFound(d) => HandleDeviceFoundInv(c, d);
        case DeviceLost(name) => HandleDeviceLostInv(c, name);
        case Error(_) =>
      }
      ApplyEventsInv(ApplyEvent(c, es[0]), es[1..]);
    }
  }

  lemma AppendAssoc(a: seq<string>, b: seq<string>, d: seq<string>)
    ensures a + b + d == a + (b + d)
  {
  }

  lemma StartDiscoveryInv(c: Controller, rejected: set<string>)
    requires Inv(c)
    ensures Inv(StartDiscovery(c, rejected))
  {
    if !c.runActive {
      var c' := StartDiscovery(c, rejected);
      var added := NsdDiscovery.Browse(c.manager.serviceTypes, rejected);
      var r, l := c.released, c.manager.listeners;
      assert c'.released == r && c'.manager.listeners == l + added;
      assert c'.registered == r + l + added;
      AppendAssoc(r, l, added);
      assert c'.discovered == [] && c'.runActive && c'.timeoutArmed;
      assert Wf(c'.registry);
    } else {
      assert StartDiscovery(c, rejected) == c;
    }
  }

  lemma StopDiscoveryInv(c: Controller)
    requires Inv(c)
    ensures Inv(StopDiscovery(c))
  {
    assert StopDiscovery(c).registered == c.released + c.manager.listeners + [];
  }

  lemma StreamFailedInv(c: Controller, message: Option<string>)
    requires Inv(c)
    ensures Inv(StreamFailed(c, message))
  {
    if c.runActive {
      assert StreamFailed(c, message).timeoutArmed;
    }
  }

  lemma ApplyInv(c: Controller, i: Input)
    requires Inv(c)
    ensures Inv(Apply(c, i))
  {
    match i
    case Start(rejected) => StartDiscoveryInv(c, rejected);
    case Platform(cb) =>
      if c.runActive {
        var st := NsdDiscovery.OnCallback(c.session, cb);
        ApplyEventsInv(c.(session := st.seen), st.events);
      }
    case Deliver(e) =>
      if c.runActive { ApplyEventsSingle(c, e); ApplyEventsInv(c, [e]); }
    case Failure(message) => StreamFailedInv(c, message);
    case Stop => StopDiscoveryInv(c);
    case TimeoutFired => if c.timeoutArmed { StopDiscoveryInv(c); }
    case Refresh(rejected) =>
      StopDiscoveryInv(c);
      StartDiscoveryInv(StopDiscovery(c), rejected);
  }

  /** Every input sequence keeps the invariant: in particular the table
      never holds two rows for one address, and no listener is released
      twice. */
  lemma {:induction false} RunInv(c: Controller, inputs: seq<Input>)
    requires Inv(c)
    ensures Inv(Run(c, inputs))
    decreases |inputs|
  {
    if |inputs| > 0 {
      ApplyInv(c, inputs[0]);
      RunInv(Apply(c, inputs[0]), inputs[1..]);
    }
  }

  /** With no other device of that name seen in this run, a device found
      and then lost ends offline and forgotten, so that finding its
      address again is applied afresh. */
  lemma FoundThenLostGoesOffline(c: Controller, d: Device)
    requires !Knows(c.discovered, d.ipAddress)
    requires FindByName(c.discovered, d.deviceName).None?
    ensures var c2 := HandleDeviceLost(HandleDeviceFound(c, d), d.deviceName);
      && d.ipAddress in c2.registry && !c2.registry[d.ipAddress].isOnline
      && !Knows(c2.discovered, d.ipAddress)
      && (forall d': Device :: d'.ipAddress == d.ipAddress ==>
            HandleDeviceFound(c2, d').status == Some(DeviceFound(d'))
            && HandleDeviceFound(c2, d').registry[d.ipAddress].isOnline)
  {
    var c1 := HandleDeviceFound(c, d);
    assert c1.discovered == c.discovered + [d];
    assert c1.discovered[|c.discovered|] == d;
    var o := FindByName(c1.discovered, d.deviceName);
    assert o.Some? && o.value == |c.discovered| by {
      assert forall j :: 0 <= j < |c.discovered| ==> c1.discovered[j] == c.discovered[j];
    }
  }

  lemma RunCons(c: Controller, i: Input, rest: seq<Input>)
    ensures Run(c, [i] + rest) == Run(Apply(c, i), rest)
  {
    assert ([i] + rest)[0] == i && ([i] + rest)[1..] == rest;
  }

  /** During a run, a found callback only records the service in the
      session's seen map. */
  lemma FoundCallback(c: Controller, s: NsdDiscovery.Service)
    requires c.runActive
    ensures Apply(c, Platform(NsdDiscovery.ServiceFound(s)))
            == c.(session := NsdDiscovery.OnServiceFound(c.session, s).seen)
  {
  }

  /** During a run, a resolution with a host address is handled as a found
      device carrying the resolved name, type and port, online. */
  lemma ResolvedCallback(c: Controller, s: NsdDiscovery.Service, host: string, port: int, now: int)
    requires c.runActive && host != ""
    ensures Apply(c, Platform(NsdDiscovery.ServiceResolved(s, Some(host), port, now)))
            == HandleDeviceFound(c, Device(host, s.serviceName, s.serviceType, port, true, now))
  {
    ApplyEventsSingle(c, NsdDiscovery.DeviceFound(Device(host, s.serviceName, s.serviceType, port, true, now)));
  }

  /** During a run, a lost callback forgets the service and is handled as
      the loss of its name. */
  lemma LostCallback(c: Controller, s: NsdDiscovery.Service)
    requires c.runActive
    ensures Apply(c, Platform(NsdDiscovery.ServiceLost(s)))
            == HandleDeviceLost(c.(session := c.session - {NsdDiscovery.ServiceKey(s)}), s.serviceName)
  {
    ApplyEventsSingle(c.(session := c.session - {NsdDiscovery.ServiceKey(s)}), NsdDiscovery.DeviceLost(s.serviceName));
  }

  /** Stopping twice is stopping once: the second stop issues no stop
      call. */
  lemma StopDiscoveryIdempotent(c: Controller)
    ensures StopDiscovery(StopDiscovery(c)) == StopDiscovery(c)
  {
    assert StopDiscovery(c).released + [] == StopDiscovery(c).released;
  }

  /** A timeout that fires after a stop does nothing. */
  lemma TimeoutAfterStopIsNoOp(c: Controller)
    ensures Timeout(StopDiscovery(c)) == StopDiscovery(c)
  {
  }

  /** If nothing arrives before the timeout, the run ends `Idle` with every
      listener it registered released exactly once, after any listeners
      still pending from a failed run. */
  lemma StartThenTimeout(c: Controller, rejected: set<string>)
    requires Inv(c) && !c.runActive
    ensures var c2 := Timeout(StartDiscovery(c, rejected));
      && !c2.runActive && c2.status == Some(Idle)
      && c2.released == c.released + c.manager.listeners + NsdDiscovery.Browse(c.manager.serviceTypes, rejected)
      && c2.registered == c2.released
      && c2.manager.listeners == []
  {
    var c1 := StartDiscovery(c, rejected);
    StartDiscoveryInv(c, rejected);
    assert c1.timeoutArmed;
  }

  /** After a stream failure the listeners stay pending; the timeout, still
      armed, releases each of them once and publishes `Idle`. */
  lemma FailureThenTimeout(c: Controller, message: Option<string>)
    requires Inv(c) && c.runActive
    ensures var c1 := StreamFailed(c, message);
      && c1.manager.listeners == c.manager.listeners && c1.released == c.released
      && Timeout(c1).released == c.released + c.manager.listeners
      && Timeout(c1).manager.listeners == [] && Timeout(c1).registered == Timeout(c1).released
      && Timeout(c1).status == Some(Idle)
  {
  }

  /** The first half of the two-service scenario: a run starts and `dev1`
      of type `A` is found and resolved at 10.0.0.1. */
  lemma FirstServiceFound(c: Controller, t1: int)
    requires !c.runActive
    ensures var a := NsdDiscovery.Service("dev1", "A");
      var c3 := Apply(Apply(Apply(c, Start({})), Platform(NsdDiscovery.ServiceFound(a))),
                      Platform(NsdDiscovery.ServiceResolved(a, Some("10.0.0.1"), 80, t1)));
      && c3.runActive && c3.discovered == [Device("10.0.0.1", "dev1", "A", 80, true, t1)]
      && "10.0.0.1" in c3.registry && c3.registry["10.0.0.1"].isOnline
  {
    var a := NsdDiscovery.Service("dev1", "A");
    var c1 := Apply(c, Start({}));
    FoundCallback(c1, a);
    var c2 := Apply(c1, Platform(NsdDiscovery.ServiceFound(a)));
    ResolvedCallback(c2, a, "10.0.0.1", 80, t1);
  }

  /** The second half: `dev2` of type `B` is found and resolved at
      10.0.0.2, then `dev1` is lost. */
  lemma SecondServiceThenLoss(c3: Controller, t1: int, t2: int)
    requires c3.runActive && c3.discovered == [Device("10.0.0.1", "dev1", "A", 80, true, t1)]
    requires "10.0.0.1" in c3.registry && c3.registry["10.0.0.1"].isOnline
    ensures var a, b := NsdDiscovery.Service("dev1", "A"), NsdDiscovery.Service("dev2", "B");
      var c6 := Apply(Apply(Apply(c3, Platform(NsdDiscovery.ServiceFound(b))),
                            Platform(NsdDiscovery.ServiceResolved(b, Some("10.0.0.2"), 631, t2))),
                      Platform(NsdDiscovery.ServiceLost(a)));
      && c6.runActive
      && "10.0.0.1" in c6.registry && !c6.registry["10.0.0.1"].isOnline
      && "10.0.0.2" in c6.registry && c6.registry["10.0.0.2"].isOnline
  {
    var a, b := NsdDiscovery.Service("dev1", "A"), NsdDiscovery.Service("dev2", "B");
    var d1 := Device("10.0.0.1", "dev1", "A", 80, true, t1);
    var d2 := Device("10.0.0.2", "dev2", "B", 631, true, t2);
    FoundCallback(c3, b);
    var c4 := Apply(c3, Platform(NsdDiscovery.ServiceFound(b)));
    ResolvedCallback(c4, b, "10.0.0.2", 631, t2);
    var c5 := Apply(c4, Platform(NsdDiscovery.ServiceResolved(b, Some("10.0.0.2"), 631, t2)));
    assert "10.0.0.1" != "10.0.0.2" by { assert "10.0.0.1"[7] != "10.0.0.2"[7]; }
    assert !Knows(c4.discovered, "10.0.0.2");
    assert c5.discovered == [d1, d2];
    LostCallback(c5, a);
    assert FindByName(c5.discovered, "dev1") == Some(0);
  }

  lemma SplitThree(i0: Input, i1: Input, i2: Input, rest: seq<Input>)
    ensures [i0, i1, i2] + rest == [i0] + ([i1] + ([i2] + rest))
  {
  }

  /** Three inputs in turn, then the rest. */
  lemma RunThree(c: Controller, i0: Input, i1: Input, i2: Input, rest: seq<Input>)
    ensures Run(c, [i0, i1, i2] + rest) == Run(Apply(Apply(Apply(c, i0), i1), i2), rest)
  {
    SplitThree(i0, i1, i2, rest);
    RunCons(c, i0, [i1] + ([i2] + rest));
    RunCons(Apply(c, i0), i1, [i2] + rest);
    RunCons(Apply(Apply(c, i0), i1), i2, rest);
  }

  lemma SplitSix(i0: Input, i1: Input, i2: Input, i3: Input, i4: Input, i5: Input)
    ensures [i0, i1, i2, i3, i4, i5] == [i0, i1, i2] + [i3, i4, i5]
    ensures [i3, i4, i5] + [] == [i3, i4, i5]
  {
  }

  /** Six inputs in turn. */
  lemma RunSix(c: Controller, i0: Input, i1: Input, i2: Input, i3: Input, i4: Input, i5: Input)
    ensures Run(c, [i0, i1, i2, i3, i4, i5])
            == Apply(Apply(Apply(Apply(Apply(Apply(c, i0), i1), i2), i3), i4), i5)
  {
    var c3 := Apply(Apply(Apply(c, i0), i1), i2);
    SplitSix(i0, i1, i2, i3, i4, i5);
    RunThree(c, i0, i1, i2, [i3, i4, i5]);
    RunThree(c3, i3, i4, i5, []);
  }

  /** Two services of two types: `dev1` at 10.0.0.1 and `dev2` at 10.0.0.2
      are found and resolved, then `dev1` is lost. `dev1` ends offline and
      `dev2` online. */
  lemma TwoServicesOneLost(c: Controller, t1: int, t2: int)
    requires !c.runActive
    ensures var a, b := NsdDiscovery.Service("dev1", "A"), NsdDiscovery.Service("dev2", "B");
      var c' := Run(c, [
        Start({}),
        Platform(NsdDiscovery.ServiceFound(a)),
        Platform(NsdDiscovery.ServiceResolved(a, Some("10.0.0.1"), 80, t1)),
        Platform(NsdDiscovery.ServiceFound(b)),
        Platform(NsdDiscovery.ServiceResolved(b, Some("10.0.0.2"), 631, t2)),
        Platform(NsdDiscovery.ServiceLost(a))]);
      && "10.0.0.1" in c'.registry && !c'.registry["10.0.0.1"].isOnline
      && "10.0.0.2" in c'.registry && c'.registry["10.0.0.2"].isOnline
      && c'.runActive
  {
    var a, b := NsdDiscovery.Service("dev1", "A"), NsdDiscovery.Service("dev2", "B");
    var i0, i1, i2 := Start({}), Platform(NsdDiscovery.ServiceFound(a)),
      Platform(NsdDiscovery.ServiceResolved(a, Some("10.0.0.1"), 80, t1));
    var i3, i4, i5 := Platform(NsdDiscovery.ServiceFound(b)),
      Platform(NsdDiscovery.ServiceResolved(b, Some("10.0.0.2"), 631, t2)), Platform(NsdDiscovery.ServiceLost(a));
    RunSix(c, i0, i1, i2, i3, i4, i5);
    FirstServiceFound(c, t1);
    SecondServiceThenLoss(Apply(Apply(Apply(c, i0), i1), i2), t1, t2);
  }
}
