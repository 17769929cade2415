/** What the device map says of a device: its last announcement, and what the prober has found since. */
module Announced {
  import opened Bytes
  import opened EventLog
  import Txt

  // ---- a device is what it last announced ----

  /** The step is an announcement that can be read, of the device with this ID. */
  predicate Announces(step: Step, id: Id) {
    step.Announce? && Txt.Parsed(step.entry.text).Ok? && Txt.Parsed(step.entry.text).value.pubHash == id
  }

  /** Every field that an announcement carries. */
  predicate Shows(d: Device, step: Step, id: Id)
    requires Announces(step, id)
  {
    var rec := Txt.Parsed(step.entry.text).value;
    && d.id == id && d.name == rec.deviceName && d.platform == rec.platform && d.port == rec.port
    && d.ipVersion == rec.ipVersion && d.hostName == step.entry.hostName
    && d.ipv4 == step.entry.ipv4 && d.ipv6 == step.entry.ipv6 && d.lastSeen == step.now
  }

  ghost predicate LastAnnounced(steps: seq<Step>, n: nat, d: Device, id: Id, j: nat) {
    && j < n <= |steps| && Announces(steps[j], id) && Shows(d, steps[j], id)
    && forall m :: j < m < n ==> !Announces(steps[m], id)
  }

  /** An announcement is in the map at once, and clears a gray mark; the own one is not. */
  lemma AnnouncementShows(s: State, step: Step, id: Id)
    requires Keyed(s) && Announces(step, id) && id != s.self
    ensures id in After(s, step).devices && Shows(After(s, step).devices[id], step, id)
    ensures After(s, step).devices[id].status == Online
    ensures After(s, step).devices[id].firstSeen == if id in s.devices then s.devices[id].firstSeen else step.now
  {
  }

  /** Without an announcement of its own a device changes its status at most, and none appears. */
  lemma OthersStay(s: State, step: Step, id: Id)
    requires Enabled(s, step) && !Announces(step, id) && id in After(s, step).devices
    ensures id in s.devices && After(s, step).devices[id] == s.devices[id].(status := After(s, step).devices[id].status)
  {
    match step
    case Announce(entry, now) => AnnounceOther(s, entry, now, id);
    case Sweep(_, _) =>
    case ProbeOk(_) =>
    case ProbeFails(_) =>
  }

  lemma AnnounceOther(s: State, entry: Entry, now: int, id: Id)
    requires !Announces(Announce(entry, now), id)
    ensures id in HandleEntry(s, entry, now).devices <==> id in s.devices
    ensures id in s.devices ==> HandleEntry(s, entry, now).devices[id] == s.devices[id]
  {
  }

  lemma {:induction false} SelfStays(self: Id, run: seq<State>, steps: seq<Step>, n: nat)
    requires IsRun(self, run, steps) && n < |run|
    ensures run[n].self == self
  {
    if n > 0 {
      SelfStays(self, run, steps, n - 1);
      assert Enabled(run[n - 1], steps[n - 1]);
    }
  }

  lemma StepOf(self: Id, run: seq<State>, steps: seq<Step>, n: nat)
    requires IsRun(self, run, steps) && 0 < n < |run|
    ensures n <= |steps| && Enabled(run[n - 1], steps[n - 1]) && run[n] == After(run[n - 1], steps[n - 1])
    ensures Keyed(run[n - 1]) && run[n - 1].self == self && self !in run[n].devices
  {
    LogTellsMap(self, run, steps, n - 1);
    LogTellsMap(self, run, steps, n);
    SelfStays(self, run, steps, n - 1);
    SelfStays(self, run, steps, n);
    assert Enabled(run[n - 1], steps[n - 1]);
  }

  lemma ComesBefore(steps: seq<Step>, n: nat, d: Device, d': Device, id: Id, j: nat)
    requires 0 < n <= |steps| && !Announces(steps[n - 1], id) && LastAnnounced(steps, n - 1, d, id, j)
    requires d' == d.(status := d'.status)
    ensures LastAnnounced(steps, n, d', id, j)
  {
  }

  /** In every run: the fields of a device are those of the last announcement of it. */
  lemma {:induction false} DeviceIsLastAnnouncement(self: Id, run: seq<State>, steps: seq<Step>, n: nat, id: Id) returns (j: nat)
    requires IsRun(self, run, steps) && n < |run| && id in run[n].devices
    ensures LastAnnounced(steps, n, run[n].devices[id], id, j)
  {
    NobodyAtFirst(self, run, steps, n);
    StepOf(self, run, steps, n);
    if Announces(steps[n - 1], id) {
      AnnouncementShows(run[n - 1], steps[n - 1], id);
      j := n - 1;
    } else {
      OthersStay(run[n - 1], steps[n - 1], id);
      j := DeviceIsLastAnnouncement(self, run, steps, n - 1, id);
      ComesBefore(steps, n, run[n - 1].devices[id], run[n].devices[id], id, j);
    }
  }

  lemma NobodyAtFirst(self: Id, run: seq<State>, steps: seq<Step>, n: nat)
    requires IsRun(self, run, steps) && n < |run|
    ensures run[n].devices != map[] ==> n > 0
  {
  }

  /** The device came with announcement i and has been there ever since. */
  ghost predicate CameWith(run: seq<State>, steps: seq<Step>, n: nat, id: Id, i: nat) {
    && i < n <= |steps| && |run| == |steps| + 1
    && Announces(steps[i], id) && id !in run[i].devices && (forall m :: i < m <= n ==> id in run[m].devices)
    && run[n].devices[id].firstSeen == steps[i].now
  }

  lemma {:induction false} FirstSeenIsArrival(self: Id, run: seq<State>, steps: seq<Step>, n: nat, id: Id) returns (i: nat)
    requires IsRun(self, run, steps) && n < |run| && id in run[n].devices
    ensures CameWith(run, steps, n, id, i)
  {
    NobodyAtFirst(self, run, steps, n);
    StepOf(self, run, steps, n);
    if Announces(steps[n - 1], id) {
      AnnouncementShows(run[n - 1], steps[n - 1], id);
    } else {
      OthersStay(run[n - 1], steps[n - 1], id);
    }
    if id in run[n - 1].devices {
      i := FirstSeenIsArrival(self, run, steps, n - 1, id);
    } else {
      i := n - 1;
    }
  }

  // ---- the sweep ----

  /** A sweep keeps exactly the devices that were heard of in the last 30 seconds. */
  lemma SweepKeepsIff(self: Id, run: seq<State>, steps: seq<Step>, i: nat, id: Id)
    requires IsRun(self, run, steps) && i < |steps| && steps[i].Sweep?
    ensures id in run[i + 1].devices <==> id in run[i].devices && steps[i].now - run[i].devices[id].lastSeen <= 30
    ensures id in run[i + 1].devices ==> exists j :: 0 <= j < i && Announces(steps[j], id) && steps[i].now - steps[j].now <= 30
  {
    StepOf(self, run, steps, i + 1);
    if id in run[i + 1].devices {
      var j := DeviceIsLastAnnouncement(self, run, steps, i, id);
    }
  }

  // ---- the prober ----

  /** A probe that fails makes the device gray if it is the third or later since the last success, and leaves it
      as it is otherwise. */
  lemma FailureGraysIff(self: Id, run: seq<State>, steps: seq<Step>, i: nat, id: Id)
    requires IsRun(self, run, steps) && i < |steps| && steps[i] == ProbeFails(id) && id in run[i].devices
    ensures FailedSince(run[i + 1].probes, id) == FailedSince(run[i].probes, id) + 1
    ensures id in run[i + 1].devices
    ensures run[i + 1].devices[id].status == if FailedSince(run[i + 1].probes, id) >= 3 then Gray else run[i].devices[id].status
  {
    GrayReachable(self, run, steps, i);
    FailedMore(run[i].probes, Probe(id, false), id);
    assert Failures(run[i], id) == FailedSince(run[i].probes, id);
    StepOf(self, run, steps, i + 1);
  }

  /** After a probe that succeeds no device is gray. */
  lemma SuccessUngrays(self: Id, run: seq<State>, steps: seq<Step>, i: nat, id: Id)
    requires IsRun(self, run, steps) && i < |steps| && steps[i] == ProbeOk(id) && id in run[i].devices
    ensures FailedSince(run[i + 1].probes, id) == 0
    ensures id in run[i + 1].devices && run[i + 1].devices[id].status == Online
  {
    GrayReachable(self, run, steps, i);
    FailedMore(run[i].probes, Probe(id, true), id);
    assert Failures(run[i], id) == FailedSince(run[i].probes, id);
    StepOf(self, run, steps, i + 1);
  }
}
