/** The objects that keep device presence: the discovery service with its prober, the event stream of one
    client, and the client's list of peers. */
module Presence {
  import opened Bytes
  import opened EventLog
  import opened Coalesce
  import Txt

  /** The comparison of two address lists. */
  method SliceEqual(a: seq<Bytes>, b: seq<Bytes>) returns (equal: bool)
    ensures equal == (a == b)
  {
    if |a| != |b| { return false; }
    var i := 0;
    while i < |a|
      invariant 0 <= i <= |a| && a[..i] == b[..i]
    {
      if a[i] != b[i] { return false; }
      i := i + 1;
    }
    assert a[..i] == a && b[..i] == b;
    return true;
  }

  class DeviceRecord {
    const id: Id
    const firstSeen: int
    var name: Bytes
    var platform: Bytes
    var port: int
    var ipVersion: Bytes
    var ipv4: seq<Bytes>
    var ipv6: seq<Bytes>
    var hostName: Bytes
    var lastSeen: int
    var status: Liveness

    function Snapshot(): Device
      reads this
    {
      Device(id, name, platform, port, ipVersion, ipv4, ipv6, hostName, firstSeen, lastSeen, status)
    }

    constructor (rec: Txt.TxtRecord, entry: Entry, now: int)
      ensures Snapshot() == NewDevice(rec, entry, now)
    {
      id, firstSeen := rec.pubHash, now;
      name, platform, port, ipVersion := rec.deviceName, rec.platform, rec.port, rec.ipVersion;
      ipv4, ipv6, hostName, lastSeen, status := entry.ipv4, entry.ipv6, entry.hostName, now, Online;
    }

    method AbsorbRecord(rec: Txt.TxtRecord) returns (changed: bool)
      modifies this`name, this`platform, this`port, this`ipVersion
      ensures name == rec.deviceName && platform == rec.platform && port == rec.port && ipVersion == rec.ipVersion
      ensures !changed <==> name == old(name) && platform == old(platform) && port == old(port) && ipVersion == old(ipVersion)
    {
      changed := false;
      if name != rec.deviceName { name, changed := rec.deviceName, true; }
      if platform != rec.platform { platform, changed := rec.platform, true; }
      if port != rec.port { port, changed := rec.port, true; }
      if ipVersion != rec.ipVersion { ipVersion, changed := rec.ipVersion, true; }
    }

    method AbsorbAddresses(entry: Entry) returns (changed: bool)
      modifies this`ipv4, this`ipv6, this`hostName
      ensures ipv4 == entry.ipv4 && ipv6 == entry.ipv6 && hostName == entry.hostName
      ensures !changed <==> ipv4 == old(ipv4) && ipv6 == old(ipv6) && hostName == old(hostName)
    {
      changed := false;
      var same4 := SliceEqual(ipv4, entry.ipv4);
      if !same4 { ipv4, changed := entry.ipv4, true; }
      var same6 := SliceEqual(ipv6, entry.ipv6);
      if !same6 { ipv6, changed := entry.ipv6, true; }
      if hostName != entry.hostName { hostName, changed := entry.hostName, true; }
    }

    /** Field by field, remembering whether any of them was different. */
    method Absorb(rec: Txt.TxtRecord, entry: Entry, now: int) returns (changed: bool)
      modifies this
      ensures Snapshot() == Refreshed(old(Snapshot()), rec, entry, now)
      ensures changed <==> Visible(Snapshot()) != Visible(old(Snapshot()))
    {
      var fields := AbsorbRecord(rec);
      var addresses := AbsorbAddresses(entry);
      changed := fields || addresses;
      lastSeen := now;
      if status == Gray { status, changed := Online, true; }
    }
  }

  /** The part of a sweep that is done when the keys in `rest` are still to be looked at. */
  ghost predicate SweepSoFar(all: map<Id, Device>, now: int, rest: set<Id>, ids: seq<Id>) {
    && rest <= all.Keys
    && (forall i :: 0 <= i < |ids| ==> ids[i] in all && ids[i] !in rest)
    && (forall id :: id in ids <==> id in all && id !in rest && Stale(all[id], now))
    && (forall i, j :: 0 <= i < j < |ids| ==> ids[i] != ids[j])
  }

  ghost predicate Gathered(all: map<Id, Device>, ids: seq<Id>, dropped: seq<Device>) {
    |dropped| == |ids| && forall i :: 0 <= i < |ids| ==> ids[i] in all && dropped[i] == all[ids[i]]
  }

  /** The state of a sweep: what is dropped so far, and what is left in the map. */
  ghost predicate Sweeping(all: map<Id, Device>, now: int, rest: set<Id>, ids: seq<Id>, dropped: seq<Device>, left: map<Id, Device>) {
    SweepSoFar(all, now, rest, ids) && Gathered(all, ids, dropped) && left == all - IdSet(ids)
  }

  lemma SweepStart(all: map<Id, Device>, now: int)
    ensures Sweeping(all, now, all.Keys, [], [], all)
  {
  }

  lemma SweepNext(all: map<Id, Device>, now: int, rest: set<Id>, ids: seq<Id>, dropped: seq<Device>, left: map<Id, Device>, id: Id)
    requires Sweeping(all, now, rest, ids, dropped, left) && id in rest
    ensures id in left && left[id] == all[id]
    ensures if Stale(left[id], now) then Sweeping(all, now, rest - {id}, ids + [id], dropped + [left[id]], left - {id})
            else Sweeping(all, now, rest - {id}, ids, dropped, left)
  {
    IdSetMore(ids, id);
  }

  lemma SweepEnd(all: map<Id, Device>, now: int, ids: seq<Id>, dropped: seq<Device>, left: map<Id, Device>)
    requires Sweeping(all, now, {}, ids, dropped, left)
    ensures IsSweep(all, now, ids) && Gathered(all, ids, dropped) && left == all - IdSet(ids)
  {
  }

  class Discovery {
    const self: Id
    var devices: map<Id, DeviceRecord>
    var failures: map<Id, nat>
    var log: seq<Event>
    ghost var probes: seq<Probe>

    ghost function Infos(): map<Id, Device>
      reads this, devices.Values
    {
      map id | id in devices :: devices[id].Snapshot()
    }

    ghost function Abs(): State
      reads this, devices.Values
    {
      State(self, Infos(), failures, log, probes)
    }

    ghost predicate Valid()
      reads this, devices.Values
    {
      forall id :: id in devices ==> devices[id].id == id
    }

    constructor (self: Id)
      ensures Valid() && Abs() == Init(self)
    {
      this.self := self;
      devices, failures, log, probes := map[], map[], [], [];
    }

    method Emit(kind: EventType, d: Device)
      modifies this`log
      ensures log == old(log) + [Event(kind, d)] && Abs() == old(Abs()).(log := log)
    {
      log := log + [Event(kind, d)];
    }

    method Insert(dev: DeviceRecord)
      requires Valid()
      modifies this`devices
      ensures Valid() && devices == old(devices)[dev.id := dev] && Infos() == old(Infos())[dev.id := dev.Snapshot()]
    {
      devices := devices[dev.id := dev];
    }

    method Refresh(dev: DeviceRecord, rec: Txt.TxtRecord, entry: Entry, now: int) returns (changed: bool)
      requires Valid() && dev.id in devices && devices[dev.id] == dev
      modifies dev
      ensures Valid() && dev.Snapshot() == Refreshed(old(dev.Snapshot()), rec, entry, now)
      ensures Infos() == old(Infos())[dev.id := dev.Snapshot()]
      ensures changed <==> Visible(dev.Snapshot()) != Visible(old(dev.Snapshot()))
    {
      changed := dev.Absorb(rec, entry, now);
    }

    method Found(rec: Txt.TxtRecord, entry: Entry, now: int)
      requires Valid() && rec.pubHash !in devices && rec.pubHash != self
      modifies this
      ensures Valid() && Abs() == Absorbed(old(Abs()), rec, entry, now)
    {
      var dev := new DeviceRecord(rec, entry, now);
      Insert(dev);
      Emit(BecameOnline, dev.Snapshot());
    }

    method Known(rec: Txt.TxtRecord, entry: Entry, now: int)
      requires Valid() && rec.pubHash in devices && rec.pubHash != self
      modifies this`log, devices.Values
      ensures Valid() && Abs() == Absorbed(old(Abs()), rec, entry, now)
    {
      var existing := devices[rec.pubHash];
      var changed := Refresh(existing, rec, entry, now);
      if changed {
        Emit(Updated, existing.Snapshot());
      }
    }

    method HandleEntry(entry: Entry, now: int)
      requires Valid()
      modifies this, devices.Values
      ensures Valid() && Abs() == EventLog.HandleEntry(old(Abs()), entry, now)
    {
      var rec := Txt.ParseTXT(entry.text);
      if rec.Err? { return; }
      if rec.value.pubHash == self { return; }
      if rec.value.pubHash !in devices {
        Found(rec.value, entry, now);
      } else {
        Known(rec.value, entry, now);
      }
    }

    method Delete(id: Id)
      requires Valid()
      modifies this`devices
      ensures Valid() && devices == old(devices) - {id} && Infos() == old(Infos()) - {id}
    {
      devices := devices - {id};
    }

    method TakeIfStale(id: Id, now: int) returns (taken: Option<Device>)
      requires Valid() && id in devices
      modifies this`devices
      ensures Valid()
      ensures var d := old(Infos())[id];
              if Stale(d, now) then taken == Some(d) && Infos() == old(Infos()) - {id} else taken == None && Infos() == old(Infos())
    {
      if devices[id].lastSeen < now - OFFLINE_TIMEOUT {
        taken := Some(devices[id].Snapshot());
        Delete(id);
      } else {
        taken := None;
      }
    }

    /** The sweep over the map, in the order it is met. */
    method DropStale(now: int) returns (dropped: seq<Device>, ghost ids: seq<Id>)
      requires Valid()
      modifies this`devices
      ensures Valid() && IsSweep(old(Infos()), now, ids) && Gathered(old(Infos()), ids, dropped)
      ensures Abs() == old(Abs()).(devices := old(Infos()) - IdSet(ids))
    {
      dropped, ids := [], [];
      var rest := devices.Keys;
      ghost var all := Infos();
      SweepStart(all, now);
      while rest != {}
        invariant Valid() && Sweeping(all, now, rest, ids, dropped, Infos())
        decreases rest
      {
        var id :| id in rest;
        SweepNext(all, now, rest, ids, dropped, Infos(), id);
        var taken := TakeIfStale(id, now);
        if taken.Some? {
          dropped, ids := dropped + [taken.value], ids + [id];
        }
        rest := rest - {id};
      }
      SweepEnd(all, now, ids, dropped, Infos());
    }

    method EmitOffline(dropped: seq<Device>, ghost all: map<Id, Device>, ghost ids: seq<Id>)
      requires Gathered(all, ids, dropped)
      modifies this`log
      ensures Abs() == old(Abs()).(log := old(log) + Offline(all, ids))
      ensures old(Valid()) ==> Valid()
    {
      var i := 0;
      while i < |dropped|
        invariant 0 <= i <= |dropped| && log == old(log) + Offline(all, ids[..i])
      {
        assert ids[..i + 1][..i] == ids[..i];
        Emit(WentOffline, dropped[i]);
        i := i + 1;
      }
      assert ids[..i] == ids;
    }

    method Reap(now: int) returns (ghost ids: seq<Id>)
      requires Valid()
      modifies this
      ensures Valid() && IsSweep(old(Infos()), now, ids)
      ensures Abs() == EventLog.Reap(old(Abs()), now, ids)
    {
      ghost var all := Infos();
      var dropped: seq<Device>;
      dropped, ids := DropStale(now);
      EmitOffline(dropped, all, ids);
    }

    method SetStatus(id: Id, status: Liveness)
      requires Valid()
      modifies this`log, devices.Values
      ensures Valid() && Abs() == EventLog.SetStatus(old(Abs()), id, status)
    {
      if id !in devices { return; }
      if devices[id].status == status { return; }
      Mark(devices[id], status);
      Emit(Updated, devices[id].Snapshot());
    }

    method Mark(dev: DeviceRecord, status: Liveness)
      requires Valid() && dev.id in devices && devices[dev.id] == dev
      modifies dev`status
      ensures Valid() && dev.Snapshot() == old(dev.Snapshot()).(status := status)
      ensures Infos() == old(Infos())[dev.id := dev.Snapshot()]
    {
      dev.status := status;
    }

    method Count(id: Id, now: map<Id, nat>, ok: bool)
      requires Valid()
      modifies this`failures, this`probes
      ensures Valid() && Abs() == old(Abs()).(failures := now, probes := old(probes) + [Probe(id, ok)])
    {
      failures := now;
      probes := probes + [Probe(id, ok)];
    }

    method OnSuccess(id: Id)
      requires Valid()
      modifies this, devices.Values
      ensures Valid() && Abs() == EventLog.OnSuccess(old(Abs()), id)
    {
      var had := if id in failures then failures[id] else 0;
      Count(id, failures - {id}, true);
      if had == 0 { return; }
      if id in devices && devices[id].status == Gray {
        SetStatus(id, Online);
      }
    }

    method OnFailure(id: Id)
      requires Valid()
      modifies this, devices.Values
      ensures Valid() && Abs() == EventLog.OnFailure(old(Abs()), id)
    {
      var count := (if id in failures then failures[id] else 0) + 1;
      Count(id, failures[id := count], false);
      if count < MAX_FAILURES { return; }
      SetStatus(id, Gray);
    }
  }

  lemma FirstIsMember(ks: seq<Key>)
    ensures ks == [] || ks[0] in ks
  {
  }

  /** The stream to one client: events wait in `pending` for the next tick. */
  class EventStream {
    var pending: map<Key, Event>
    var order: seq<Key>
    var sent: seq<Event>
    ghost var window: seq<Event>

    ghost predicate Valid()
      reads this
    {
      && order == Keys(window)
      && (forall k :: k in pending <==> k in order)
      && (forall k :: k in pending ==> Latest(window, k) == Some(pending[k]))
    }

    constructor ()
      ensures Valid() && window == [] && sent == []
    {
      pending, order, sent, window := map[], [], [], [];
    }

    method Receive(e: Event)
      requires Valid()
      modifies this
      ensures Valid() && window == old(window) + [e] && sent == old(sent)
    {
      var key := KeyOf(e);
      ghost var w := window + [e];
      assert w[..|window|] == window;
      if key !in pending {
        order := order + [key];
      }
      pending := pending[key := e];
      window := w;
    }

    method SendPending()
      requires Valid()
      modifies this`sent
      ensures sent == old(sent) + Coalesced(window)
    {
      ghost var all := Coalesced(window);
      KeysHaveEvents(window);
      var i := 0;
      while i < |order|
        invariant 0 <= i <= |order| && sent == old(sent) + all[..i]
      {
        assert order[i] in order;
        sent := sent + [pending[order[i]]];
        i := i + 1;
      }
      assert all[..i] == all;
    }

    /** What is sent for a window is its coalesced form, whatever came before. */
    method Flush()
      requires Valid()
      modifies this
      ensures Valid() && window == [] && sent == old(sent) + Coalesced(old(window))
    {
      FirstIsMember(order);
      if |pending| == 0 {
        assert Coalesced(window) == [];
        window := [];
        return;
      }
      SendPending();
      pending, order, window := map[], [], [];
    }
  }

  // ---- the client ----

  /** The first place of a device in the list, or -1. */
  function IndexOf(peers: seq<Device>, id: Id): (i: int)
    ensures -1 <= i < |peers|
    ensures i < 0 <==> forall k :: 0 <= k < |peers| ==> peers[k].id != id
    ensures i >= 0 ==> peers[i].id == id
  {
    if peers == [] then -1
    else if peers[0].id == id then 0
    else
      var i := IndexOf(peers[1..], id);
      assert i < 0 ==> forall k :: 0 < k < |peers| ==> peers[k] == peers[1..][k - 1];
      if i < 0 then -1 else i + 1
  }

  predicate DistinctIds(peers: seq<Device>) {
    forall i, j :: 0 <= i < j < |peers| ==> peers[i].id != peers[j].id
  }

  /** The list as a map. */
  ghost predicate Shows(peers: seq<Device>, v: View) {
    && DistinctIds(peers)
    && (forall i :: 0 <= i < |peers| ==> peers[i].id in v && v[peers[i].id] == Visible(peers[i]))
    && (forall id :: id in v ==> IndexOf(peers, id) >= 0)
  }

  /** The list of peers that a client shows. */
  class PeerList {
    var peers: seq<Device>

    constructor ()
      ensures peers == [] && Shows(peers, map[])
    {
      peers := [];
    }

    method IndexWhere(id: Id) returns (i: int)
      ensures -1 <= i < |peers| && (i < 0 <==> IndexOf(peers, id) < 0) && (i >= 0 ==> peers[i].id == id)
    {
      i := 0;
      while i < |peers|
        invariant 0 <= i <= |peers| && forall k :: 0 <= k < i ==> peers[k].id != id
      {
        if peers[i].id == id { return; }
        i := i + 1;
      }
      i := -1;
    }

    /** The list goes on showing what the events say, and the devices keep their places. */
    method OnEvent(e: Event, ghost v: View)
      requires Shows(peers, v)
      modifies this
      ensures Shows(peers, Apply(v, e))
      ensures e.kind != WentOffline ==> |peers| >= |old(peers)| && forall i :: 0 <= i < |old(peers)| ==> peers[i].id == old(peers[i].id)
    {
      var list := peers;
      var idx := IndexWhere(e.device.id);
      if e.kind != WentOffline {
        if idx >= 0 {
          list := list[idx := e.device];
          Replaced(peers, v, e, idx);
        } else {
          list := list + [e.device];
          Appended(peers, v, e);
        }
      } else if idx >= 0 {
        list := list[..idx] + list[idx + 1..];
        Removed(peers, v, e, idx);
      } else {
        NotShown(peers, v, e);
      }
      peers := list;
    }
  }

  ghost predicate Listed(peers: seq<Device>, id: Id) {
    exists i :: 0 <= i < |peers| && peers[i].id == id
  }

  lemma ShownIff(peers: seq<Device>, v: View, id: Id)
    requires Shows(peers, v)
    ensures id in v <==> Listed(peers, id)
  {
  }

  /** Enough for a list to show a view. */
  lemma ShowsBy(peers: seq<Device>, v: View)
    requires DistinctIds(peers)
    requires forall i :: 0 <= i < |peers| ==> peers[i].id in v && v[peers[i].id] == Visible(peers[i])
    requires forall id :: id in v ==> Listed(peers, id)
    ensures Shows(peers, v)
  {
  }

  lemma Replaced(peers: seq<Device>, v: View, e: Event, idx: nat)
    requires Shows(peers, v) && e.kind != WentOffline && idx < |peers| && peers[idx].id == e.device.id
    ensures Shows(peers[idx := e.device], Apply(v, e))
  {
    var list := peers[idx := e.device];
    forall id | id in Apply(v, e) ensures Listed(list, id) {
      ShownIff(peers, v, id);
      var i :| 0 <= i < |peers| && peers[i].id == id;
      assert list[i].id == id;
    }
    ShowsBy(list, Apply(v, e));
  }

  lemma Appended(peers: seq<Device>, v: View, e: Event)
    requires Shows(peers, v) && e.kind != WentOffline && IndexOf(peers, e.device.id) < 0
    ensures Shows(peers + [e.device], Apply(v, e))
  {
    var list := peers + [e.device];
    forall id | id in Apply(v, e) ensures Listed(list, id) {
      if id == e.device.id {
        assert list[|peers|].id == id;
      } else {
        ShownIff(peers, v, id);
        var i :| 0 <= i < |peers| && peers[i].id == id;
        assert list[i].id == id;
      }
    }
    ShowsBy(list, Apply(v, e));
  }

  lemma WithoutAt(peers: seq<Device>, idx: nat)
    requires DistinctIds(peers) && idx < |peers|
    ensures var list := peers[..idx] + peers[idx + 1..];
            && DistinctIds(list)
            && (forall i :: 0 <= i < |list| ==> list[i] == peers[if i < idx then i else i + 1])
            && (forall i :: 0 <= i < |list| ==> list[i].id != peers[idx].id)
  {
  }

  lemma StillThere(peers: seq<Device>, v: View, idx: nat, id: Id)
    requires Shows(peers, v) && idx < |peers| && id in v && id != peers[idx].id
    ensures Listed(peers[..idx] + peers[idx + 1..], id)
  {
    ShownIff(peers, v, id);
    var i :| 0 <= i < |peers| && peers[i].id == id;
    OneOut(peers, idx, i);
  }

  lemma OneOut(peers: seq<Device>, idx: nat, i: nat)
    requires idx < |peers| && i < |peers| && i != idx
    ensures Listed(peers[..idx] + peers[idx + 1..], peers[i].id)
  {
    var list := peers[..idx] + peers[idx + 1..];
    assert list[if i < idx then i else i - 1] == peers[i];
  }

  lemma Removed(peers: seq<Device>, v: View, e: Event, idx: nat)
    requires Shows(peers, v) && e.kind == WentOffline && idx < |peers| && peers[idx].id == e.device.id
    ensures Shows(peers[..idx] + peers[idx + 1..], Apply(v, e))
  {
    var list := peers[..idx] + peers[idx + 1..];
    WithoutAt(peers, idx);
    forall id | id in Apply(v, e) ensures Listed(list, id) {
      StillThere(peers, v, idx, id);
    }
    ShowsBy(list, Apply(v, e));
  }

  lemma NotShown(peers: seq<Device>, v: View, e: Event)
    requires Shows(peers, v) && e.kind == WentOffline && IndexOf(peers, e.device.id) < 0
    ensures Apply(v, e) == v
  {
    ShownIff(peers, v, e.device.id);
  }
}
