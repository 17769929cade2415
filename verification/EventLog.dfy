/** Device presence: the device map, the events it emits, and the liveness prober. */
module EventLog {
  import opened Bytes
  import Txt

  type Id = Bytes

  datatype Liveness = Online | Gray

  datatype Device = Device(
    id: Id, name: Bytes, platform: Bytes, port: int, ipVersion: Bytes, ipv4: seq<Bytes>, ipv6: seq<Bytes>,
    hostName: Bytes, firstSeen: int, lastSeen: int, status: Liveness)

  datatype EventType = BecameOnline | WentOffline | Updated

  datatype Event = Event(kind: EventType, device: Device)

  /** An announcement from the network. */
  datatype Entry = Entry(text: seq<Bytes>, hostName: Bytes, ipv4: seq<Bytes>, ipv6: seq<Bytes>)

  // ---- the meaning of an event ----

  type View = map<Id, Device>

  /** Everything but the time of the last announcement, which changes without an event. */
  function Visible(d: Device): Device {
    d.(lastSeen := 0)
  }

  /** What an event does to the device it is about: it is there, with these fields, or it is gone. */
  function Effect(e: Event): Option<Device> {
    if e.kind == WentOffline then None else Some(Visible(e.device))
  }

  function Apply(v: View, e: Event): View {
    if Effect(e).Some? then v[e.device.id := Effect(e).value] else v - {e.device.id}
  }

  function Replay(v: View, log: seq<Event>): View {
    if log == [] then v else Apply(Replay(v, log[..|log| - 1]), log[|log| - 1])
  }

  lemma ReplayMore(v: View, log: seq<Event>, e: Event)
    ensures Replay(v, log + [e]) == Apply(Replay(v, log), e)
  {
    assert (log + [e])[..|log|] == log;
  }

  function Seen(devices: map<Id, Device>): View {
    map id | id in devices :: Visible(devices[id])
  }

  // ---- the operations ----

  const OFFLINE_TIMEOUT := 30
  const MAX_FAILURES := 3

  datatype Probe = Probe(id: Id, ok: bool)

  /** The log, the self ID and the probes stand for what was emitted and observed. */
  datatype State = State(self: Id, devices: map<Id, Device>, failures: map<Id, nat>, log: seq<Event>, probes: seq<Probe>)

  function Init(self: Id): State {
    State(self, map[], map[], [], [])
  }

  function NewDevice(rec: Txt.TxtRecord, entry: Entry, now: int): Device {
    Device(rec.pubHash, rec.deviceName, rec.platform, rec.port, rec.ipVersion, entry.ipv4, entry.ipv6,
           entry.hostName, now, now, Online)
  }

  /** An announcement brings every field up to date and clears the gray mark. */
  function Refreshed(d: Device, rec: Txt.TxtRecord, entry: Entry, now: int): Device {
    d.(name := rec.deviceName, platform := rec.platform, port := rec.port, ipVersion := rec.ipVersion,
       ipv4 := entry.ipv4, ipv6 := entry.ipv6, hostName := entry.hostName, lastSeen := now, status := Online)
  }

  /** A record that parsed. */
  function Absorbed(s: State, rec: Txt.TxtRecord, entry: Entry, now: int): State {
    var id := rec.pubHash;
    if id == s.self then s
    else if id !in s.devices then
      var dev := NewDevice(rec, entry, now);
      s.(devices := s.devices[id := dev], log := s.log + [Event(BecameOnline, dev)])
    else
      var dev := Refreshed(s.devices[id], rec, entry, now);
      var s' := s.(devices := s.devices[id := dev]);
      if Visible(dev) == Visible(s.devices[id]) then s' else s'.(log := s.log + [Event(Updated, dev)])
  }

  function HandleEntry(s: State, entry: Entry, now: int): State {
    var rec := Txt.Parsed(entry.text);
    if rec.Err? then s else Absorbed(s, rec.value, entry, now)
  }

  predicate Stale(d: Device, now: int) {
    d.lastSeen < now - OFFLINE_TIMEOUT
  }

  function Offline(devices: map<Id, Device>, ids: seq<Id>): (es: seq<Event>)
    requires forall i :: 0 <= i < |ids| ==> ids[i] in devices
    ensures |es| == |ids| && forall i :: 0 <= i < |es| ==> es[i].kind == WentOffline
  {
    if ids == [] then []
    else Offline(devices, ids[..|ids| - 1]) + [Event(WentOffline, devices[ids[|ids| - 1]])]
  }

  ghost function IdSet(ids: seq<Id>): set<Id> {
    set id | id in ids
  }

  /** The stale devices, in the order the map happens to give them. */
  ghost predicate IsSweep(devices: map<Id, Device>, now: int, ids: seq<Id>) {
    && (forall i :: 0 <= i < |ids| ==> ids[i] in devices)
    && (forall id :: id in ids <==> id in devices && Stale(devices[id], now))
    && (forall i, j :: 0 <= i < j < |ids| ==> ids[i] != ids[j])
  }

  ghost function Reap(s: State, now: int, ids: seq<Id>): State
    requires IsSweep(s.devices, now, ids)
  {
    s.(devices := s.devices - IdSet(ids), log := s.log + Offline(s.devices, ids))
  }

  function SetStatus(s: State, id: Id, status: Liveness): State {
    if id !in s.devices || s.devices[id].status == status then s
    else
      var dev := s.devices[id].(status := status);
      s.(devices := s.devices[id := dev], log := s.log + [Event(Updated, dev)])
  }

  function Failures(s: State, id: Id): nat {
    if id in s.failures then s.failures[id] else 0
  }

  function OnSuccess(s: State, id: Id): State {
    var s' := s.(failures := s.failures - {id}, probes := s.probes + [Probe(id, true)]);
    if Failures(s, id) > 0 && id in s.devices && s.devices[id].status == Gray then SetStatus(s', id, Online) else s'
  }

  function OnFailure(s: State, id: Id): State {
    var count := Failures(s, id) + 1;
    var s' := s.(failures := s.failures[id := count], probes := s.probes + [Probe(id, false)]);
    if count < MAX_FAILURES then s' else SetStatus(s', id, Gray)
  }

  datatype Step =
    | Announce(entry: Entry, now: int)
    | Sweep(now: int, ids: seq<Id>)
    | ProbeOk(id: Id)
    | ProbeFails(id: Id)

  ghost predicate Enabled(s: State, step: Step) {
    step.Sweep? ==> IsSweep(s.devices, step.now, step.ids)
  }

  ghost function After(s: State, step: Step): State
    requires Enabled(s, step)
  {
    match step
    case Announce(entry, now) => HandleEntry(s, entry, now)
    case Sweep(now, ids) => Reap(s, now, ids)
    case ProbeOk(id) => OnSuccess(s, id)
    case ProbeFails(id) => OnFailure(s, id)
  }

  ghost predicate IsRun(self: Id, run: seq<State>, steps: seq<Step>) {
    && |run| == |steps| + 1
    && run[0] == Init(self)
    && forall i {:trigger steps[i]} :: 0 <= i < |steps| ==> Enabled(run[i], steps[i]) && run[i + 1] == After(run[i], steps[i])
  }

  // ---- the log tells the map ----

  ghost predicate Keyed(s: State) {
    && s.self !in s.devices
    && forall id :: id in s.devices ==> s.devices[id].id == id
  }

  ghost predicate LogAgrees(s: State) {
    Keyed(s) && Replay(map[], s.log) == Seen(s.devices)
  }

  lemma SeenUpdate(devices: map<Id, Device>, id: Id, d: Device)
    ensures Seen(devices[id := d]) == Seen(devices)[id := Visible(d)]
  {
  }

  lemma AbsorbedKeeps(s: State, rec: Txt.TxtRecord, entry: Entry, now: int)
    requires LogAgrees(s)
    ensures LogAgrees(Absorbed(s, rec, entry, now))
  {
    var id := rec.pubHash;
    var dev := if id in s.devices then Refreshed(s.devices[id], rec, entry, now) else NewDevice(rec, entry, now);
    SeenUpdate(s.devices, id, dev);
    ReplayMore(map[], s.log, Event(BecameOnline, dev));
    ReplayMore(map[], s.log, Event(Updated, dev));
    if id in s.devices && Visible(dev) == Visible(s.devices[id]) {
      assert Seen(s.devices)[id := Visible(dev)] == Seen(s.devices);
    }
  }

  lemma HandleKeeps(s: State, entry: Entry, now: int)
    requires LogAgrees(s)
    ensures LogAgrees(HandleEntry(s, entry, now))
  {
    var rec := Txt.Parsed(entry.text);
    if rec.Ok? { AbsorbedKeeps(s, rec.value, entry, now); }
  }

  lemma SetStatusKeeps(s: State, id: Id, status: Liveness)
    requires LogAgrees(s)
    ensures LogAgrees(SetStatus(s, id, status))
  {
    if id in s.devices {
      var dev := s.devices[id].(status := status);
      SeenUpdate(s.devices, id, dev);
      ReplayMore(map[], s.log, Event(Updated, dev));
    }
  }

  lemma IdSetMore(ids: seq<Id>, id: Id)
    ensures IdSet(ids + [id]) == IdSet(ids) + {id}
  {
  }

  lemma OfflineStep(v: View, log: seq<Event>, offline: seq<Event>, e: Event, ids: seq<Id>)
    requires e.kind == WentOffline && Replay(v, log + offline) == Replay(v, log) - IdSet(ids)
    ensures Replay(v, log + (offline + [e])) == Replay(v, log) - IdSet(ids + [e.device.id])
  {
    assert log + (offline + [e]) == log + offline + [e];
    ReplayMore(v, log + offline, e);
    IdSetMore(ids, e.device.id);
  }

  lemma {:induction false} ReplayOffline(v: View, log: seq<Event>, devices: map<Id, Device>, ids: seq<Id>)
    requires forall i :: 0 <= i < |ids| ==> ids[i] in devices && devices[ids[i]].id == ids[i]
    ensures Replay(v, log + Offline(devices, ids)) == Replay(v, log) - IdSet(ids)
  {
    if ids == [] {
      assert log + [] == log;
    } else {
      var n := |ids| - 1;
      ReplayOffline(v, log, devices, ids[..n]);
      OfflineStep(v, log, Offline(devices, ids[..n]), Event(WentOffline, devices[ids[n]]), ids[..n]);
      assert ids == ids[..n] + [ids[n]];
    }
  }

  lemma ReapKeeps(s: State, now: int, ids: seq<Id>)
    requires LogAgrees(s) && IsSweep(s.devices, now, ids)
    ensures LogAgrees(Reap(s, now, ids))
  {
    ReplayOffline(map[], s.log, s.devices, ids);
    assert Seen(s.devices - IdSet(ids)) == Seen(s.devices) - IdSet(ids);
  }

  lemma LogKeeps(s: State, step: Step)
    requires LogAgrees(s) && Enabled(s, step)
    ensures LogAgrees(After(s, step))
  {
    match step
    case Announce(entry, now) => HandleKeeps(s, entry, now);
    case Sweep(now, ids) => ReapKeeps(s, now, ids);
    case ProbeOk(id) =>
      SetStatusKeeps(s.(failures := s.failures - {id}, probes := s.probes + [Probe(id, true)]), id, Online);
    case ProbeFails(id) =>
      SetStatusKeeps(s.(failures := s.failures[id := Failures(s, id) + 1], probes := s.probes + [Probe(id, false)]), id, Gray);
  }

  /** In every run, what the events say, replayed from nothing, is the device map on every field but the
      time of the last announcement; the own device is never in it. */
  lemma {:induction false} LogTellsMap(self: Id, run: seq<State>, steps: seq<Step>, n: nat)
    requires IsRun(self, run, steps) && n < |run|
    ensures Replay(map[], run[n].log) == Seen(run[n].devices) && Keyed(run[n])
    ensures forall id :: id in run[n].devices ==>
      id in Replay(map[], run[n].log) && Replay(map[], run[n].log)[id].(lastSeen := run[n].devices[id].lastSeen) == run[n].devices[id]
  {
    if n == 0 {
      assert Seen(map[]) == map[];
    } else {
      LogTellsMap(self, run, steps, n - 1);
      LogKeeps(run[n - 1], steps[n - 1]);
    }
  }

  // ---- gray means three failures ----

  /** Failed probes of a device since the last that succeeded. */
  function FailedSince(probes: seq<Probe>, id: Id): nat {
    if probes == [] then 0
    else
      var last := probes[|probes| - 1];
      var before := FailedSince(probes[..|probes| - 1], id);
      if last.id != id then before else if last.ok then 0 else before + 1
  }

  lemma FailedMore(probes: seq<Probe>, p: Probe, id: Id)
    ensures FailedSince(probes + [p], id) ==
            if p.id != id then FailedSince(probes, id) else if p.ok then 0 else FailedSince(probes, id) + 1
  {
    assert (probes + [p])[..|probes|] == probes;
  }

  ghost predicate GrayOk(s: State) {
    && (forall id :: Failures(s, id) == FailedSince(s.probes, id))
    && (forall id :: id in s.devices && s.devices[id].status == Gray ==> Failures(s, id) >= MAX_FAILURES)
  }

  /** Announcements and sweeps leave the counts alone and make no device gray. */
  lemma NoProbeKeeps(s: State, s': State)
    requires GrayOk(s) && s'.failures == s.failures && s'.probes == s.probes
    requires forall id :: id in s'.devices && s'.devices[id].status == Gray ==> id in s.devices && s.devices[id].status == Gray
    ensures GrayOk(s')
  {
    assert forall id :: Failures(s', id) == Failures(s, id);
  }

  lemma AnnounceGrays(s: State, entry: Entry, now: int)
    requires GrayOk(s)
    ensures GrayOk(HandleEntry(s, entry, now))
  {
    var rec := Txt.Parsed(entry.text);
    if rec.Ok? { AbsorbedGrays(s, rec.value, entry, now); }
  }

  lemma AbsorbedGrays(s: State, rec: Txt.TxtRecord, entry: Entry, now: int)
    requires GrayOk(s)
    ensures GrayOk(Absorbed(s, rec, entry, now))
  {
    NoProbeKeeps(s, Absorbed(s, rec, entry, now));
  }

  lemma SuccessKeeps(s: State, p: Id)
    requires GrayOk(s)
    ensures GrayOk(OnSuccess(s, p))
  {
    var s' := OnSuccess(s, p);
    forall id ensures Failures(s', id) == FailedSince(s'.probes, id) {
      FailedMore(s.probes, Probe(p, true), id);
      assert id != p ==> Failures(s', id) == Failures(s, id);
    }
    forall id | id in s'.devices && s'.devices[id].status == Gray ensures Failures(s', id) >= MAX_FAILURES {
      assert id != p && Failures(s', id) == Failures(s, id);
    }
  }

  lemma FailureKeeps(s: State, p: Id)
    requires GrayOk(s)
    ensures GrayOk(OnFailure(s, p))
  {
    var s' := OnFailure(s, p);
    forall id ensures Failures(s', id) == FailedSince(s'.probes, id) {
      FailedMore(s.probes, Probe(p, false), id);
      assert id != p ==> Failures(s', id) == Failures(s, id);
    }
    forall id | id in s'.devices && s'.devices[id].status == Gray ensures Failures(s', id) >= MAX_FAILURES {
      assert id != p ==> Failures(s', id) == Failures(s, id);
    }
  }

  lemma GrayKeeps(s: State, step: Step)
    requires GrayOk(s) && Enabled(s, step)
    ensures GrayOk(After(s, step))
  {
    match step
    case Announce(entry, now) => AnnounceGrays(s, entry, now);
    case Sweep(_, _) => NoProbeKeeps(s, After(s, step));
    case ProbeOk(p) => SuccessKeeps(s, p);
    case ProbeFails(p) => FailureKeeps(s, p);
  }

  /** A device is shown gray only after three failed probes with no success since; a device that drops
      out and comes back keeps its count. */
  lemma {:induction false} GrayMeansThreeFailures(self: Id, run: seq<State>, steps: seq<Step>, n: nat, id: Id)
    requires IsRun(self, run, steps) && n < |run|
    requires id in run[n].devices && run[n].devices[id].status == Gray
    ensures FailedSince(run[n].probes, id) >= 3
  {
    GrayReachable(self, run, steps, n);
    assert Failures(run[n], id) == FailedSince(run[n].probes, id);
  }

  lemma {:induction false} GrayReachable(self: Id, run: seq<State>, steps: seq<Step>, n: nat)
    requires IsRun(self, run, steps) && n < |run|
    ensures GrayOk(run[n])
  {
    if n > 0 {
      GrayReachable(self, run, steps, n - 1);
      GrayKeeps(run[n - 1], steps[n - 1]);
    }
  }
}
