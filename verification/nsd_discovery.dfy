/** The discovery manager: one browse per configured service type, a
    per-collection map of services already seen, resolution of newly found
    services into devices, and release of the browse listeners. Platform
    callbacks are inputs; every handler is a pure step. */
module NsdDiscovery {
  import opened Wrappers
  import opened Devices

  /** The service types browsed on every collection, in order. */
  const ServiceTypes: seq<string> := [
    "_http._tcp.", "_https._tcp.", "_ipp._tcp.", "_ipps._tcp.",
    "_printer._tcp.", "_pdl-datastream._tcp.", "_scanner._tcp.",
    "_googlecast._tcp.", "_spotify-connect._tcp.", "_airplay._tcp.",
    "_raop._tcp.", "_smb._tcp.", "_afpovertcp._tcp.", "_ssh._tcp.",
    "_sftp-ssh._tcp.", "_workstation._tcp.", "_device-info._tcp.",
    "_homekit._tcp.", "_hap._tcp.", "_matter._tcp.",
    "_companion-link._tcp.", "_sleep-proxy._udp."
  ]

  /** What the platform reports about an advertised service before it is
      resolved. */
  datatype Service = Service(serviceName: string, serviceType: string)

  /** The events of the discovery stream. */
  datatype DiscoveryEvent =
    | DiscoveryStarted
    | DeviceFound(device: Device)
    | DeviceLost(deviceName: string)
    | Error(message: string)

  /** The platform callbacks of one browse. `host` is the resolved host
      address, `None` when the platform gives no host; `now` is the clock
      reading at resolution. */
  datatype Callback =
    | ServiceFound(service: Service)
    | ServiceResolved(service: Service, host: Option<string>, port: int, now: int)
    | ResolveFailed(service: Service)
    | ServiceLost(service: Service)

  /** The dedup key of a service: its name, an underscore, its type. */
  function ServiceKey(s: Service): (key: string)
    ensures |key| == |s.serviceName| + 1 + |s.serviceType|
    ensures key[..|s.serviceName|] == s.serviceName && key[|s.serviceName|] == '_'
    ensures key[|s.serviceName| + 1..] == s.serviceType
  {
    s.serviceName + "_" + s.serviceType
  }

  /** Within one service type the key tells services apart, so a browse
      never suppresses a service because of another of its own type. */
  lemma ServiceKeySameType(a: Service, b: Service)
    requires a.serviceType == b.serviceType && ServiceKey(a) == ServiceKey(b)
    ensures a == b
  {
    var k := ServiceKey(a);
    assert |a.serviceName| == |b.serviceName|;
    assert a.serviceName == k[..|a.serviceName|] == b.serviceName;
  }

  /** Services already seen in the current collection, by `ServiceKey`. */
  type SeenMap = map<string, Service>

  /** The effect of one callback: the new seen map, the resolve request
      issued (if any) and the events emitted. */
  datatype Step = Step(seen: SeenMap, resolve: Option<Service>, events: seq<DiscoveryEvent>)

  /** A found service is resolved only the first time its key is seen;
      nothing is emitted until it resolves. */
  function OnServiceFound(seen: SeenMap, s: Service): (st: Step)
    ensures st.events == []
    ensures st.resolve.Some? <==> ServiceKey(s) !in seen
    ensures st.resolve.Some? ==> st.resolve.value == s
    ensures st.seen.Keys == seen.Keys + {ServiceKey(s)}
    ensures ServiceKey(s) in seen ==> st.seen == seen
    ensures forall k :: k in seen ==> st.seen[k] == seen[k]
  {
    var key := ServiceKey(s);
    if key in seen then Step(seen, None, [])
    else Step(seen[key := s], Some(s), [])
  }

  /** The device built from a resolution; the address is empty when the
      platform gave no host. */
  function ResolvedDevice(s: Service, host: Option<string>, port: int, now: int): (d: Device)
    ensures d.ipAddress == host.GetOr("")
    ensures d.deviceName == s.serviceName && d.serviceType == s.serviceType
    ensures d.port == port && d.isOnline && d.lastDiscoveredAt == now
  {
    Device(host.GetOr(""), s.serviceName, s.serviceType, port, true, now)
  }

  /** A resolution emits `DeviceFound` exactly when the host address is
      non-empty. */
  function OnServiceResolved(s: Service, host: Option<string>, port: int, now: int): (events: seq<DiscoveryEvent>)
    ensures |events| <= 1
    ensures |events| == 1 <==> host.Some? && host.value != ""
    ensures forall e :: e in events ==>
              e.DeviceFound? && e.device.ipAddress == host.value && e.device.isOnline
              && e.device.deviceName == s.serviceName && e.device.serviceType == s.serviceType
              && e.device.port == port && e.device.lastDiscoveredAt == now
  {
    var d := ResolvedDevice(s, host, port, now);
    if d.ipAddress != "" then [DeviceFound(d)] else []
  }

  /** A lost service is forgotten, so it can be found again, and its name
      is always reported, seen or not. */
  function OnServiceLost(seen: SeenMap, s: Service): (st: Step)
    ensures st.seen.Keys == seen.Keys - {ServiceKey(s)}
    ensures forall k :: k in st.seen ==> st.seen[k] == seen[k]
    ensures st.resolve == None
    ensures st.events == [DeviceLost(s.serviceName)]
  {
    Step(seen - {ServiceKey(s)}, None, [DeviceLost(s.serviceName)])
  }

  /** Dispatch of one callback. A failed resolution is swallowed. */
  function OnCallback(seen: SeenMap, c: Callback): (st: Step)
    ensures c.ServiceResolved? || c.ResolveFailed? ==> st.seen == seen && st.resolve == None
    ensures c.ResolveFailed? ==> st.events == []
    ensures forall e :: e in st.events ==> e.DeviceFound? || e.DeviceLost?
  {
    match c
    case ServiceFound(s) => OnServiceFound(seen, s)
    case ServiceResolved(s, host, port, now) => Step(seen, None, OnServiceResolved(s, host, port, now))
    case ResolveFailed(_) => Step(seen, None, [])
    case ServiceLost(s) => OnServiceLost(seen, s)
  }

  /** The result of feeding a sequence of callbacks to one collection. */
  datatype Trace = Trace(seen: SeenMap, resolves: seq<Service>, events: seq<DiscoveryEvent>)

  function OnCallbacks(seen: SeenMap, cs: seq<Callback>): Trace
    decreases |cs|
  {
    if |cs| == 0 then Trace(seen, [], [])
    else
      var st := OnCallback(seen, cs[0]);
      var t := OnCallbacks(st.seen, cs[1..]);
      var first := if st.resolve.Some? then [st.resolve.value] else [];
      Trace(t.seen, first + t.resolves, st.events + t.events)
  }

  /** `n` identical found callbacks. */
  function Repeated(s: Service, n: nat): (cs: seq<Callback>)
    ensures |cs| == n
    ensures forall i :: 0 <= i < n ==> cs[i] == ServiceFound(s)
  {
    if n == 0 then [] else [ServiceFound(s)] + Repeated(s, n - 1)
  }

  /** Repeated announcements of an already seen service do nothing. */
  lemma {:induction false} RepeatsOfSeenAreSuppressed(seen: SeenMap, s: Service, n: nat)
    requires ServiceKey(s) in seen
    ensures OnCallbacks(seen, Repeated(s, n)) == Trace(seen, [], [])
    decreases n
  {
    if n > 0 {
      assert Repeated(s, n)[1..] == Repeated(s, n - 1);
      RepeatsOfSeenAreSuppressed(seen, s, n - 1);
    }
  }

  /** However often a new service is announced, it is resolved once and
      nothing is emitted for the announcements themselves. */
  lemma RepeatedFoundResolvesOnce(seen: SeenMap, s: Service, n: nat)
    requires ServiceKey(s) !in seen && n > 0
    ensures var t := OnCallbacks(seen, Repeated(s, n));
      t.resolves == [s] && t.events == [] && t.seen == seen[ServiceKey(s) := s]
  {
    var seen1 := seen[ServiceKey(s) := s];
    assert Repeated(s, n)[1..] == Repeated(s, n - 1);
    RepeatsOfSeenAreSuppressed(seen1, s, n - 1);
  }

  /** After a loss, the same service announced again is resolved again. */
  lemma FoundAgainAfterLost(seen: SeenMap, s: Service)
    ensures OnCallbacks(seen, [ServiceFound(s), ServiceLost(s), ServiceFound(s)]).resolves
            == if ServiceKey(s) in seen then [s] else [s, s]
  {
    var cs := [ServiceFound(s), ServiceLost(s), ServiceFound(s)];
    var st1 := OnCallback(seen, cs[0]);
    var st2 := OnCallback(st1.seen, cs[1]);
    var st3 := OnCallback(st2.seen, cs[2]);
    assert st2.resolve == None && ServiceKey(s) !in st2.seen;
    assert st3.resolve == Some(s);
    assert cs[1..][1..] == cs[2..] == [cs[2]] && cs[2..][1..] == [];
    assert OnCallbacks(st2.seen, cs[2..]).resolves == [s];
    assert OnCallbacks(st1.seen, cs[1..]).resolves == [s];
  }

  /** The types whose browse request the platform accepted, in order;
      a rejected type is skipped and the rest are still tried. */
  function Browse(types: seq<string>, rejected: set<string>): (accepted: seq<string>)
    ensures |accepted| <= |types|
    ensures forall t :: t in accepted <==> t in types && t !in rejected
    ensures forall t :: multiset(accepted)[t] == if t in rejected then 0 else multiset(types)[t]
    decreases |types|
  {
    if |types| == 0 then []
    else
      var rest := Browse(types[1..], rejected);
      assert types == [types[0]] + types[1..];
      assert multiset(types) == multiset{types[0]} + multiset(types[1..]);
      assert forall t :: t in types <==> t == types[0] || t in types[1..];
      if types[0] in rejected then rest
      else
        assert multiset([types[0]] + rest) == multiset{types[0]} + multiset(rest);
        [types[0]] + rest
  }

  /** Browsing two lists of types in turn records the listeners of the
      first and then those of the second: each attempt is made in order. */
  lemma {:induction false} BrowseConcat(a: seq<string>, b: seq<string>, rejected: set<string>)
    ensures Browse(a + b, rejected) == Browse(a, rejected) + Browse(b, rejected)
    decreases |a|
  {
    if |a| == 0 {
      assert a + b == b;
    } else {
      assert (a + b)[0] == a[0] && (a + b)[1..] == a[1..] + b;
      BrowseConcat(a[1..], b, rejected);
    }
  }

  /** A single type gets a listener exactly when the platform accepts it. */
  lemma BrowseOne(t: string, rejected: set<string>)
    ensures Browse([t], rejected) == if t in rejected then [] else [t]
  {
    assert [t][1..] == [];
  }

  /** The manager's state: the service types it browses (`ServiceTypes`
      in the app) and the listeners of the browses that were started and
      not yet stopped, one per service type browsed. */
  datatype Manager = Manager(serviceTypes: seq<string>, listeners: seq<string>)

  /** The start of a collection of the discovery stream. */
  datatype Collection = Collection(manager: Manager, seen: SeenMap, events: seq<DiscoveryEvent>)

  /** Collecting the stream starts with an empty seen map, attempts every
      service type, records a listener for each accepted one (added to any
      listeners not yet released) and then emits one `DiscoveryStarted`. */
  function DiscoverDevices(m: Manager, rejected: set<string>): (c: Collection)
    ensures c.seen == map[]
    ensures c.events == [DiscoveryStarted]
    ensures c.manager.serviceTypes == m.serviceTypes
    ensures |m.listeners| <= |c.manager.listeners| <= |m.listeners| + |m.serviceTypes|
    ensures c.manager.listeners[..|m.listeners|] == m.listeners
    ensures forall t :: t in c.manager.listeners[|m.listeners|..] <==> t in m.serviceTypes && t !in rejected
    ensures forall t :: multiset(c.manager.listeners[|m.listeners|..])[t] ==
              if t in rejected then 0 else multiset(m.serviceTypes)[t]
  {
    var added := Browse(m.serviceTypes, rejected);
    var ls := m.listeners + added;
    assert ls[|m.listeners|..] == added;
    Collection(Manager(m.serviceTypes, ls), map[], [DiscoveryStarted])
  }

  /** Stopping asks the platform to stop every recorded listener, in order,
      and then forgets them. */
  function StopDiscovery(m: Manager): (r: (Manager, seq<string>))
    ensures r.0.listeners == [] && r.0.serviceTypes == m.serviceTypes
    ensures r.1 == m.listeners
  {
    (m.(listeners := []), m.listeners)
  }

  /** A second stop issues no stop call. */
  lemma StopDiscoveryTwice(m: Manager)
    ensures StopDiscovery(StopDiscovery(m).0).1 == []
    ensures StopDiscovery(StopDiscovery(m).0).0 == StopDiscovery(m).0
  {
  }
}
