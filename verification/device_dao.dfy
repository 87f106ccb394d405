/** The `devices` table and the DAO's queries over it. The table is a
    finite map from the primary key `ipAddress` to the row stored under
    it; each operation is the meaning of one annotated query. */
module DeviceDao {
  import opened Wrappers
  import opened Devices

  type Registry = map<string, Device>

  /** Every row is stored under its own primary key, so no two rows share
      an `ipAddress`. */
  predicate Wf(r: Registry)
  {
    forall ip :: ip in r ==> r[ip].ipAddress == ip
  }

  /** `SELECT * FROM devices WHERE ipAddress = :ipAddress`. */
  function GetDeviceByIp(r: Registry, ip: string): (o: Option<Device>)
    ensures o.Some? <==> ip in r
    ensures o.Some? ==> o.value == r[ip]
    ensures Wf(r) && o.Some? ==> o.value.ipAddress == ip
  {
    if ip in r then Some(r[ip]) else None
  }

  /** `@Insert(onConflict = REPLACE)`: the row replaces whatever row had
      the same primary key. */
  function InsertDevice(r: Registry, d: Device): (r': Registry)
    ensures r'.Keys == r.Keys + {d.ipAddress}
    ensures GetDeviceByIp(r', d.ipAddress) == Some(d)
    ensures forall ip :: ip in r && ip != d.ipAddress ==> r'[ip] == r[ip]
    ensures Wf(r) ==> Wf(r')
  {
    r[d.ipAddress := d]
  }

  /** The key set of a list of rows. */
  function IpsOf(ds: seq<Device>): set<string>
  {
    set i | 0 <= i < |ds| :: ds[i].ipAddress
  }

  /** No later row of `ds` has the key of `ds[i]`. */
  predicate LastWithKey(ds: seq<Device>, i: int)
    requires 0 <= i < |ds|
  {
    forall j :: i < j < |ds| ==> ds[j].ipAddress != ds[i].ipAddress
  }

  lemma IpsOfCons(ds: seq<Device>)
    requires |ds| > 0
    ensures IpsOf(ds) == {ds[0].ipAddress} + IpsOf(ds[1..])
  {
    forall ip | ip in IpsOf(ds) ensures ip in {ds[0].ipAddress} + IpsOf(ds[1..]) {
      var i :| 0 <= i < |ds| && ds[i].ipAddress == ip;
      if i > 0 { assert ds[1..][i - 1] == ds[i]; }
    }
    forall ip | ip in IpsOf(ds[1..]) ensures ip in IpsOf(ds) {
      var i :| 0 <= i < |ds[1..]| && ds[1..][i].ipAddress == ip;
      assert ds[i + 1] == ds[1..][i];
    }
  }

  lemma LastWithKeyTail(ds: seq<Device>, i: int)
    requires 0 < i < |ds| && LastWithKey(ds, i)
    ensures LastWithKey(ds[1..], i - 1)
  {
    forall j | i - 1 < j < |ds[1..]| ensures ds[1..][j].ipAddress != ds[1..][i - 1].ipAddress {
      assert ds[1..][j] == ds[j + 1];
    }
  }

  /** The batch `@Insert(onConflict = REPLACE)`: rows are inserted in list
      order, so for a key occurring several times the last row wins. */
  function InsertDevices(r: Registry, ds: seq<Device>): (r': Registry)
    ensures r'.Keys == r.Keys + IpsOf(ds)
    ensures forall ip :: ip in r && ip !in IpsOf(ds) ==> r'[ip] == r[ip]
    ensures forall i :: 0 <= i < |ds| && LastWithKey(ds, i) ==> GetDeviceByIp(r', ds[i].ipAddress) == Some(ds[i])
    ensures Wf(r) ==> Wf(r')
    decreases |ds|
  {
    if |ds| == 0 then r
    else
      var r' := InsertDevices(InsertDevice(r, ds[0]), ds[1..]);
      IpsOfCons(ds);
      assert forall i :: 0 < i < |ds| && LastWithKey(ds, i) ==> GetDeviceByIp(r', ds[i].ipAddress) == Some(ds[i]) by {
        forall i | 0 < i < |ds| && LastWithKey(ds, i) ensures GetDeviceByIp(r', ds[i].ipAddress) == Some(ds[i]) {
          LastWithKeyTail(ds, i);
          assert ds[1..][i - 1] == ds[i];
        }
      }
      assert LastWithKey(ds, 0) ==> ds[0].ipAddress !in IpsOf(ds[1..]);
      r'
  }

  /** `@Update`: the row with the same primary key is overwritten as a
      whole; without such a row nothing happens. */
  function UpdateDevice(r: Registry, d: Device): (r': Registry)
    ensures r'.Keys == r.Keys
    ensures d.ipAddress in r ==> r'[d.ipAddress] == d
    ensures forall ip :: ip in r && ip != d.ipAddress ==> r'[ip] == r[ip]
    ensures d.ipAddress !in r ==> r' == r
    ensures Wf(r) ==> Wf(r')
  {
    if d.ipAddress in r then r[d.ipAddress := d] else r
  }

  /** `UPDATE devices SET isOnline = :isOnline WHERE ipAddress = :ipAddress`. */
  function UpdateDeviceStatus(r: Registry, ip: string, isOnline: bool): (r': Registry)
    ensures r'.Keys == r.Keys
    ensures ip in r ==> r'[ip].isOnline == isOnline && SameRecord(r'[ip], r[ip])
    ensures forall k :: k in r && k != ip ==> r'[k] == r[k]
    ensures ip !in r ==> r' == r
    ensures Wf(r) ==> Wf(r')
  {
    if ip in r then r[ip := r[ip].(isOnline := isOnline)] else r
  }

  /** `UPDATE devices SET isOnline = 0`. */
  function MarkAllDevicesOffline(r: Registry): (r': Registry)
    ensures r'.Keys == r.Keys
    ensures forall ip :: ip in r ==> !r'[ip].isOnline && SameRecord(r'[ip], r[ip])
    ensures Wf(r) ==> Wf(r')
  {
    map ip | ip in r :: r[ip].(isOnline := false)
  }

  /** `DELETE FROM devices WHERE ipAddress = :ipAddress`. */
  function DeleteDevice(r: Registry, ip: string): (r': Registry)
    ensures r'.Keys == r.Keys - {ip}
    ensures forall k :: k in r' ==> r'[k] == r[k]
    ensures Wf(r) ==> Wf(r')
  {
    r - {ip}
  }

  /** `DELETE FROM devices`. */
  function DeleteAllDevices(): (r': Registry)
    ensures forall ip :: GetDeviceByIp(r', ip) == None
  {
    map[]
  }

  /** Marking every row offline a second time changes nothing. */
  lemma MarkAllDevicesOfflineIdempotent(r: Registry)
    ensures MarkAllDevicesOffline(MarkAllDevicesOffline(r)) == MarkAllDevicesOffline(r)
  {
    var once := MarkAllDevicesOffline(r);
    var twice := MarkAllDevicesOffline(once);
    assert forall ip :: ip in once ==> twice[ip] == once[ip];
  }

  /** After inserting `d`, updating its status touches exactly that row. */
  lemma InsertThenStatus(r: Registry, d: Device, b: bool)
    ensures GetDeviceByIp(UpdateDeviceStatus(InsertDevice(r, d), d.ipAddress, b), d.ipAddress)
            == Some(d.(isOnline := b))
  {
  }

  /** Deleting a row just inserted leaves the table as deleting that key
      would have without the insert. */
  lemma InsertThenDelete(r: Registry, d: Device)
    ensures DeleteDevice(InsertDevice(r, d), d.ipAddress) == DeleteDevice(r, d.ipAddress)
  {
    var a := DeleteDevice(InsertDevice(r, d), d.ipAddress);
    var b := DeleteDevice(r, d.ipAddress);
    assert a.Keys == b.Keys;
  }

  /** An update of a row just inserted under the same key is the same as
      inserting the updated row. */
  lemma InsertThenUpdate(r: Registry, d: Device, d': Device)
    requires d'.ipAddress == d.ipAddress
    ensures UpdateDevice(InsertDevice(r, d), d') == InsertDevice(r, d')
  {
  }

  /** A one-row batch is a single insert. */
  lemma InsertDevicesSingle(r: Registry, d: Device)
    ensures InsertDevices(r, [d]) == InsertDevice(r, d)
  {
    assert [d][1..] == [];
  }

  /** The writes the DAO offers, as data so that sequences of them can be
      folded over a table. */
  datatype Write =
    | Insert(device: Device)
    | InsertAll(devices: seq<Device>)
    | Update(device: Device)
    | UpdateStatus(ip: string, isOnline: bool)
    | MarkAllOffline
    | Delete(ip: string)
    | DeleteAll

  function ApplyWrite(r: Registry, w: Write): Registry
  {
    match w
    case Insert(d) => InsertDevice(r, d)
    case InsertAll(ds) => InsertDevices(r, ds)
    case Update(d) => UpdateDevice(r, d)
    case UpdateStatus(ip, b) => UpdateDeviceStatus(r, ip, b)
    case MarkAllOffline => MarkAllDevicesOffline(r)
    case Delete(ip) => DeleteDevice(r, ip)
    case DeleteAll => DeleteAllDevices()
  }

  function ApplyWrites(r: Registry, ws: seq<Write>): Registry
    decreases |ws|
  {
    if |ws| == 0 then r else ApplyWrites(ApplyWrite(r, ws[0]), ws[1..])
  }

  /** Whatever writes are applied, starting from a table keyed by primary
      key, the table never holds two rows with the same `ipAddress`. */
  lemma {:induction false} ApplyWritesKeepsWf(r: Registry, ws: seq<Write>)
    requires Wf(r)
    ensures Wf(ApplyWrites(r, ws))
    decreases |ws|
  {
    if |ws| > 0 {
      var r1 := ApplyWrite(r, ws[0]);
      assert Wf(r1);
      ApplyWritesKeepsWf(r1, ws[1..]);
    }
  }

  /** Rows ordered by `lastDiscoveredAt`, most recent first. */
  predicate NewestFirst(s: seq<Device>)
  {
    forall i, j :: 0 <= i < j < |s| ==> s[i].lastDiscoveredAt >= s[j].lastDiscoveredAt
  }

  /** The position at which `d` joins a newest-first list: after every
      strictly newer row and before every row that is not newer. */
  function InsertionPoint(s: seq<Device>, d: Device): (k: nat)
    requires NewestFirst(s)
    ensures k <= |s|
    ensures forall i :: 0 <= i < k ==> s[i].lastDiscoveredAt > d.lastDiscoveredAt
    ensures forall i :: k <= i < |s| ==> s[i].lastDiscoveredAt <= d.lastDiscoveredAt
    decreases |s|
  {
    if |s| == 0 || s[0].lastDiscoveredAt <= d.lastDiscoveredAt then 0
    else
      var k := 1 + InsertionPoint(s[1..], d);
      assert forall i :: 1 <= i < |s| ==> s[i] == s[1..][i - 1];
      k
  }

  /** `d` placed at its insertion point. */
  function InsertByRecency(s: seq<Device>, d: Device): seq<Device>
    requires NewestFirst(s)
  {
    var k := InsertionPoint(s, d);
    s[..k] + [d] + s[k..]
  }

  /** `t` is `s` with `d` placed at position `k`. */
  predicate PlacedAt(s: seq<Device>, d: Device, k: nat, t: seq<Device>)
  {
    && k <= |s|
    && |t| == |s| + 1
    && (forall i :: 0 <= i < k ==> t[i] == s[i])
    && t[k] == d
    && (forall i :: k < i < |t| ==> t[i] == s[i - 1])
  }

  lemma InsertByRecencyShape(s: seq<Device>, d: Device)
    requires NewestFirst(s)
    ensures PlacedAt(s, d, InsertionPoint(s, d), InsertByRecency(s, d))
  {
    var k := InsertionPoint(s, d);
    var t := InsertByRecency(s, d);
    assert forall i :: 0 <= i < k ==> t[i] == s[i];
    assert forall i :: k < i < |t| ==> t[i] == s[i - 1];
  }

  /** Placing `d` after every strictly newer row and before the others
      keeps the list newest first and adds exactly `d`. */
  lemma PlacedAtFacts(s: seq<Device>, d: Device, k: nat, t: seq<Device>)
    requires NewestFirst(s) && PlacedAt(s, d, k, t)
    requires forall i :: 0 <= i < k ==> s[i].lastDiscoveredAt > d.lastDiscoveredAt
    requires forall i :: k <= i < |s| ==> s[i].lastDiscoveredAt <= d.lastDiscoveredAt
    ensures NewestFirst(t)
    ensures forall x :: x in t <==> x in s || x == d
  {
    forall i, j | 0 <= i < j < |t| ensures t[i].lastDiscoveredAt >= t[j].lastDiscoveredAt {
      if j < k { assert t[i] == s[i] && t[j] == s[j]; }
      else if j == k { assert t[i] == s[i]; }
      else if i < k { assert t[i] == s[i] && t[j] == s[j - 1]; }
      else if i == k { assert t[j] == s[j - 1]; }
      else { assert t[i] == s[i - 1] && t[j] == s[j - 1]; }
    }
    forall x | x in s ensures x in t {
      var i :| 0 <= i < |s| && s[i] == x;
      if i < k { assert t[i] == x; } else { assert t[i + 1] == x; }
    }
    forall x | x in t ensures x in s || x == d {
      var i :| 0 <= i < |t| && t[i] == x;
      if i < k { assert s[i] == x; } else if i > k { assert s[i - 1] == x; }
    }
  }

  /** Inserting at the insertion point keeps the list newest first, adds
      exactly `d`, and shifts the rows behind it by one. */
  lemma InsertByRecencyFacts(s: seq<Device>, d: Device)
    requires NewestFirst(s)
    ensures PlacedAt(s, d, InsertionPoint(s, d), InsertByRecency(s, d))
    ensures NewestFirst(InsertByRecency(s, d))
    ensures forall x :: x in InsertByRecency(s, d) <==> x in s || x == d
  {
    InsertByRecencyShape(s, d);
    PlacedAtFacts(s, d, InsertionPoint(s, d), InsertByRecency(s, d));
  }

  /** The loop state of the snapshot: `s` holds, newest first, exactly
      the rows whose keys are no longer in `rest`, each once. */
  predicate SnapshotSoFar(r: Registry, s: seq<Device>, rest: set<string>)
  {
    && rest <= r.Keys
    && NewestFirst(s)
    && |s| + |rest| == |r|
    && (forall i :: 0 <= i < |s| ==> s[i].ipAddress in r && s[i].ipAddress !in rest && r[s[i].ipAddress] == s[i])
    && (forall i, j :: 0 <= i < j < |s| ==> s[i].ipAddress != s[j].ipAddress)
    && (forall ip :: ip in r && ip !in rest ==> r[ip] in s)
  }

  /** Moving one key from `rest` into the snapshot keeps the loop state. */
  lemma SnapshotStep(r: Registry, s: seq<Device>, rest: set<string>, ip: string)
    requires Wf(r) && SnapshotSoFar(r, s, rest) && ip in rest
    ensures SnapshotSoFar(r, InsertByRecency(s, r[ip]), rest - {ip})
  {
    var d := r[ip];
    InsertByRecencyFacts(s, d);
    var s' := InsertByRecency(s, d);
    var k := InsertionPoint(s, d);
    forall i | 0 <= i < |s'|
      ensures s'[i].ipAddress in r && s'[i].ipAddress !in rest - {ip} && r[s'[i].ipAddress] == s'[i]
    {
      if i < k { assert s'[i] == s[i]; } else if i > k { assert s'[i] == s[i - 1]; }
    }
    forall i, j | 0 <= i < j < |s'| ensures s'[i].ipAddress != s'[j].ipAddress {
      if i < k && j > k { assert s'[i] == s[i] && s'[j] == s[j - 1]; }
      else if j < k { assert s'[i] == s[i] && s'[j] == s[j]; }
      else if i > k { assert s'[i] == s[i - 1] && s'[j] == s[j - 1]; }
    }
  }

  /** `SELECT * FROM devices ORDER BY lastDiscoveredAt DESC` (both the
      live query and its one-shot form): every row exactly once, newest
      first. Rows with equal timestamps may come in any order, as in SQL. */
  method GetAllDevices(r: Registry) returns (s: seq<Device>)
    requires Wf(r)
    ensures NewestFirst(s)
    ensures |s| == |r|
    ensures forall i :: 0 <= i < |s| ==> s[i].ipAddress in r && r[s[i].ipAddress] == s[i]
    ensures forall i, j :: 0 <= i < j < |s| ==> s[i].ipAddress != s[j].ipAddress
    ensures forall ip :: ip in r ==> r[ip] in s
  {
    s := [];
    var rest := r.Keys;
    while rest != {}
      invariant SnapshotSoFar(r, s, rest)
      decreases |rest|
    {
      var ip :| ip in rest;
      SnapshotStep(r, s, rest, ip);
      s := InsertByRecency(s, r[ip]);
      rest := rest - {ip};
    }
  }
}
