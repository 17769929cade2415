/** Device presence on a clock. A device goes offline only 30 seconds after its last announcement, and that
    bounds what coalescing can hide from a client. */
module EventClock {
  import opened Bytes
  import opened EventLog
  import opened Coalesce
  import Txt

  /** times[i] is when step i happens; the clock does not go back. */
  ghost predicate IsTimed(self: Id, run: seq<State>, steps: seq<Step>, times: seq<int>) {
    && IsRun(self, run, steps) && |times| == |steps|
    && (forall i, j :: 0 <= i < j < |times| ==> times[i] <= times[j])
    && (forall i :: 0 <= i < |steps| ==> ReadsClock(steps[i], times[i]))
  }

  predicate ReadsClock(step: Step, t: int) {
    match step
    case Announce(_, now) => now == t
    case Sweep(now, _) => now == t
    case _ => true
  }

  // ---- a device goes offline late ----

  predicate Announces(self: Id, step: Step, id: Id) {
    step.Announce? && Txt.Parsed(step.entry.text).Ok? && Txt.Parsed(step.entry.text).value.pubHash == id && id != self
  }

  lemma SelfStays(s: State, step: Step)
    requires Enabled(s, step)
    ensures After(s, step).self == s.self
  {
  }

  /** Only an announcement touches the time of the last announcement. */
  lemma LastSeenStep(s: State, step: Step, t: int, id: Id)
    requires Enabled(s, step) && ReadsClock(step, t) && id in After(s, step).devices
    ensures if Announces(s.self, step, id) then After(s, step).devices[id].lastSeen == t
            else id in s.devices && After(s, step).devices[id].lastSeen == s.devices[id].lastSeen
  {
  }

  lemma {:induction false} SelfIs(self: Id, run: seq<State>, steps: seq<Step>, n: nat)
    requires IsRun(self, run, steps) && n < |run|
    ensures run[n].self == self
  {
    if n > 0 {
      SelfIs(self, run, steps, n - 1);
      SelfStays(run[n - 1], steps[n - 1]);
    }
  }

  lemma {:induction false} LastSeenIsLatest(self: Id, run: seq<State>, steps: seq<Step>, times: seq<int>, n: nat, q: nat, id: Id)
    requires IsTimed(self, run, steps, times) && q < n < |run|
    requires id in run[n].devices && Announces(self, steps[q], id)
    ensures times[q] <= run[n].devices[id].lastSeen
  {
    SelfIs(self, run, steps, n - 1);
    LastSeenStep(run[n - 1], steps[n - 1], times[n - 1], id);
    if !Announces(self, steps[n - 1], id) {
      LastSeenIsLatest(self, run, steps, times, n - 1, q, id);
    }
  }

  /** Whenever a sweep takes a device offline, more than 30 seconds have passed since every announcement of
      that device, the silent ones included. */
  lemma OfflineIsLate(self: Id, run: seq<State>, steps: seq<Step>, times: seq<int>, p: nat, q: nat, id: Id)
    requires IsTimed(self, run, steps, times) && q < p < |steps|
    requires steps[p].Sweep? && id in steps[p].ids && Announces(self, steps[q], id)
    ensures times[p] - times[q] > 30
  {
    assert Enabled(run[p], steps[p]) && ReadsClock(steps[p], times[p]);
    LastSeenIsLatest(self, run, steps, times, p, q, id);
  }

  // ---- when each event was emitted ----

  function Repeat(t: int, n: nat): (r: seq<int>)
    ensures |r| == n && forall i :: 0 <= i < n ==> r[i] == t
  {
    seq(n, _ => t)
  }

  /** The times of the events in the log of run[n]. */
  function StampsOf(run: seq<State>, times: seq<int>, n: nat): seq<int>
    requires n < |run| && |times| + 1 == |run|
  {
    if n == 0 then []
    else
      StampsOf(run, times, n - 1)
      + Repeat(times[n - 1], if |run[n].log| > |run[n - 1].log| then |run[n].log| - |run[n - 1].log| else 0)
  }

  ghost predicate Ascending(stamps: seq<int>) {
    forall i, j :: 0 <= i < j < |stamps| ==> stamps[i] <= stamps[j]
  }

  /** A device appears exactly when it is not there; the other events are about devices that are. */
  ghost predicate AlternatesAt(log: seq<Event>, j: nat)
    requires j < |log|
  {
    log[j].kind == BecameOnline <==> log[j].device.id !in Replay(map[], log[..j])
  }

  ghost predicate Alternates(log: seq<Event>) {
    forall j {:trigger AlternatesAt(log, j)} :: 0 <= j < |log| ==> AlternatesAt(log, j)
  }

  predicate Opposite(on: Event, off: Event) {
    on.kind == BecameOnline && off.kind == WentOffline && on.device.id == off.device.id
  }

  /** A device that appeared goes offline more than 30 seconds later. */
  ghost predicate Gap(log: seq<Event>, stamps: seq<int>)
    requires |stamps| == |log|
  {
    forall i, j :: 0 <= i < j < |log| && Opposite(log[i], log[j]) ==> stamps[j] - stamps[i] > 30
  }

  ghost predicate LogOk(log: seq<Event>, stamps: seq<int>) {
    |stamps| == |log| && Ascending(stamps) && Alternates(log) && Gap(log, stamps)
  }

  ghost predicate Timely(s: State, stamps: seq<int>, clock: int) {
    && LogAgrees(s) && LogOk(s.log, stamps)
    && (forall i :: 0 <= i < |stamps| ==> stamps[i] <= clock)
    && (forall i :: 0 <= i < |s.log| && s.log[i].kind == BecameOnline && s.log[i].device.id in s.devices ==>
         stamps[i] <= s.devices[s.log[i].device.id].lastSeen)
  }

  lemma AddEvent(log: seq<Event>, stamps: seq<int>, e: Event, t: int)
    requires LogOk(log, stamps) && forall i :: 0 <= i < |stamps| ==> stamps[i] <= t
    requires e.kind == BecameOnline <==> e.device.id !in Replay(map[], log)
    requires e.kind == WentOffline ==> LongAgo(log, stamps, e.device.id, t)
    ensures LogOk(log + [e], stamps + [t])
  {
    var all := log + [e];
    forall j | 0 <= j < |all| ensures AlternatesAt(all, j) {
      assert all[..j] == if j < |log| then log[..j] else log;
      assert j < |log| ==> AlternatesAt(log, j);
    }
  }

  lemma SameLog(s: State, stamps: seq<int>, clock: int, s': State, t: int)
    requires Timely(s, stamps, clock) && clock <= t && s'.log == s.log && LogAgrees(s')
    requires forall id :: id in s'.devices ==>
      s'.devices[id].lastSeen == t || (id in s.devices && s'.devices[id].lastSeen == s.devices[id].lastSeen)
    ensures Timely(s', stamps, t)
  {
  }

  lemma OneEvent(s: State, stamps: seq<int>, clock: int, s': State, e: Event, t: int)
    requires Timely(s, stamps, clock) && clock <= t && s'.log == s.log + [e] && LogAgrees(s')
    requires e.kind != WentOffline && (e.kind == BecameOnline <==> e.device.id !in s.devices)
    requires e.kind == BecameOnline ==> e.device.id in s'.devices && s'.devices[e.device.id].lastSeen == t
    requires forall id :: id in s'.devices ==>
      s'.devices[id].lastSeen == t || (id in s.devices && s'.devices[id].lastSeen == s.devices[id].lastSeen)
    ensures Timely(s', stamps + [t], t)
  {
    AddEvent(s.log, stamps, e, t);
  }

  lemma RepeatMore(stamps: seq<int>, t: int, n: nat)
    ensures stamps + Repeat(t, n + 1) == stamps + Repeat(t, n) + [t] && stamps + Repeat(t, 0) == stamps
  {
  }

  lemma {:induction false} OfflineEvents(s: State, stamps: seq<int>, clock: int, ids: seq<Id>, t: int)
    requires Timely(s, stamps, clock) && clock <= t
    requires forall i :: 0 <= i < |ids| ==> ids[i] in s.devices && Stale(s.devices[ids[i]], t)
    requires forall i, j :: 0 <= i < j < |ids| ==> ids[i] != ids[j]
    ensures LogOk(s.log + Offline(s.devices, ids), stamps + Repeat(t, |ids|))
  {
    if ids == [] {
      assert s.log + [] == s.log;
      RepeatMore(stamps, t, 0);
    } else {
      var n := |ids| - 1;
      var front, e := ids[..n], Event(WentOffline, s.devices[ids[n]]);
      OfflineEvents(s, stamps, clock, front, t);
      ReplayOffline(map[], s.log, s.devices, front);
      AddOffline(s, stamps, clock, front, e, t);
      Associate(s.log, Offline(s.devices, front), [e]);
      RepeatMore(stamps, t, n);
    }
  }

  /** Every appearance of the device is more than 30 seconds before t. */
  ghost predicate LongAgo(log: seq<Event>, stamps: seq<int>, id: Id, t: int)
    requires |stamps| == |log|
  {
    forall i :: 0 <= i < |log| && log[i].kind == BecameOnline && log[i].device.id == id ==> t - stamps[i] > 30
  }

  lemma LongAgoMore(log: seq<Event>, stamps: seq<int>, off: seq<Event>, id: Id, t: int)
    requires |stamps| == |log| && LongAgo(log, stamps, id, t)
    requires forall i :: 0 <= i < |off| ==> off[i].kind == WentOffline
    ensures LongAgo(log + off, stamps + Repeat(t, |off|), id, t)
  {
  }

  lemma AddOffline(s: State, stamps: seq<int>, clock: int, ids: seq<Id>, e: Event, t: int)
    requires Timely(s, stamps, clock) && clock <= t
    requires forall i :: 0 <= i < |ids| ==> ids[i] in s.devices
    requires LogOk(s.log + Offline(s.devices, ids), stamps + Repeat(t, |ids|))
    requires Replay(map[], s.log + Offline(s.devices, ids)) == Replay(map[], s.log) - IdSet(ids)
    requires e.kind == WentOffline && e.device.id in s.devices && e.device.id !in ids
    requires Stale(s.devices[e.device.id], t)
    ensures LogOk(s.log + Offline(s.devices, ids) + [e], stamps + Repeat(t, |ids|) + [t])
  {
    assert LongAgo(s.log, stamps, e.device.id, t);
    LongAgoMore(s.log, stamps, Offline(s.devices, ids), e.device.id, t);
    assert e.device.id in Seen(s.devices);
    AddEvent(s.log + Offline(s.devices, ids), stamps + Repeat(t, |ids|), e, t);
  }

  lemma SweepKeepsTime(s: State, stamps: seq<int>, clock: int, ids: seq<Id>, t: int)
    requires Timely(s, stamps, clock) && clock <= t && IsSweep(s.devices, t, ids)
    ensures |Reap(s, t, ids).log| == |s.log| + |ids|
    ensures Timely(Reap(s, t, ids), stamps + Repeat(t, |ids|), t)
  {
    OfflineEvents(s, stamps, clock, ids, t);
    ReapKeeps(s, t, ids);
  }

  lemma FoundKeepsTime(s: State, stamps: seq<int>, clock: int, rec: Txt.TxtRecord, entry: Entry, t: int)
    requires Timely(s, stamps, clock) && clock <= t && rec.pubHash != s.self && rec.pubHash !in s.devices
    ensures Timely(Absorbed(s, rec, entry, t), stamps + [t], t)
  {
    var dev := NewDevice(rec, entry, t);
    AbsorbedKeeps(s, rec, entry, t);
    OneEvent(s, stamps, clock, Absorbed(s, rec, entry, t), Event(BecameOnline, dev), t);
  }

  lemma KnownKeepsTime(s: State, stamps: seq<int>, clock: int, rec: Txt.TxtRecord, entry: Entry, t: int)
    requires Timely(s, stamps, clock) && clock <= t && rec.pubHash != s.self && rec.pubHash in s.devices
    ensures var s' := Absorbed(s, rec, entry, t);
            if s'.log == s.log then Timely(s', stamps, t) else |s'.log| == |s.log| + 1 && Timely(s', stamps + [t], t)
  {
    var s' := Absorbed(s, rec, entry, t);
    AbsorbedKeeps(s, rec, entry, t);
    if s'.log == s.log {
      SameLog(s, stamps, clock, s', t);
    } else {
      OneEvent(s, stamps, clock, s', Event(Updated, s'.devices[rec.pubHash]), t);
    }
  }

  lemma RecordKeepsTime(s: State, stamps: seq<int>, clock: int, rec: Txt.TxtRecord, entry: Entry, t: int)
    requires Timely(s, stamps, clock) && clock <= t
    ensures var s' := Absorbed(s, rec, entry, t);
            && |s.log| <= |s'.log| && Timely(s', stamps + Repeat(t, |s'.log| - |s.log|), t)
  {
    RepeatMore(stamps, t, 0);
    if rec.pubHash == s.self {
      SameLog(s, stamps, clock, s, t);
    } else if rec.pubHash in s.devices {
      KnownKeepsTime(s, stamps, clock, rec, entry, t);
    } else {
      FoundKeepsTime(s, stamps, clock, rec, entry, t);
    }
  }

  lemma AnnounceKeepsTime(s: State, stamps: seq<int>, clock: int, entry: Entry, t: int)
    requires Timely(s, stamps, clock) && clock <= t
    ensures var s' := HandleEntry(s, entry, t);
            && |s.log| <= |s'.log| && Timely(s', stamps + Repeat(t, |s'.log| - |s.log|), t)
  {
    var rec := Txt.Parsed(entry.text);
    if rec.Ok? {
      RecordKeepsTime(s, stamps, clock, rec.value, entry, t);
    } else {
      SameLog(s, stamps, clock, s, t);
      RepeatMore(stamps, t, 0);
    }
  }

  lemma StatusKeepsTime(s: State, stamps: seq<int>, clock: int, id: Id, status: Liveness, t: int)
    requires Timely(s, stamps, clock) && clock <= t
    ensures var s' := SetStatus(s, id, status);
            && |s.log| <= |s'.log| && Timely(s', stamps + Repeat(t, |s'.log| - |s.log|), t)
  {
    var s' := SetStatus(s, id, status);
    SetStatusKeeps(s, id, status);
    if s'.log == s.log {
      SameLog(s, stamps, clock, s', t);
      RepeatMore(stamps, t, 0);
    } else {
      OneEvent(s, stamps, clock, s', s'.log[|s.log|], t);
      RepeatMore(stamps, t, 0);
    }
  }

  lemma ProbeKeepsTime(s: State, stamps: seq<int>, clock: int, s1: State, id: Id, status: Liveness, t: int)
    requires Timely(s, stamps, clock) && clock <= t && s1.log == s.log && s1.devices == s.devices && s1.self == s.self
    ensures var s' := SetStatus(s1, id, status);
            && |s.log| <= |s'.log| && Timely(s', stamps + Repeat(t, |s'.log| - |s.log|), t)
    ensures Timely(s1, stamps + Repeat(t, 0), t)
  {
    SameLog(s, stamps, clock, s1, t);
    StatusKeepsTime(s1, stamps, t, id, status, t);
    RepeatMore(stamps, t, 0);
  }

  lemma SuccessKeepsTime(s: State, stamps: seq<int>, clock: int, id: Id, t: int)
    requires Timely(s, stamps, clock) && clock <= t
    ensures var s' := OnSuccess(s, id);
            && |s.log| <= |s'.log| && Timely(s', stamps + Repeat(t, |s'.log| - |s.log|), t)
  {
    ProbeKeepsTime(s, stamps, clock, s.(failures := s.failures - {id}, probes := s.probes + [Probe(id, true)]), id, Online, t);
  }

  lemma FailureKeepsTime(s: State, stamps: seq<int>, clock: int, id: Id, t: int)
    requires Timely(s, stamps, clock) && clock <= t
    ensures var s' := OnFailure(s, id);
            && |s.log| <= |s'.log| && Timely(s', stamps + Repeat(t, |s'.log| - |s.log|), t)
  {
    ProbeKeepsTime(s, stamps, clock,
                   s.(failures := s.failures[id := Failures(s, id) + 1], probes := s.probes + [Probe(id, false)]), id, Gray, t);
  }

  lemma TimeKeeps(s: State, stamps: seq<int>, clock: int, step: Step, t: int)
    requires Timely(s, stamps, clock) && clock <= t && Enabled(s, step) && ReadsClock(step, t)
    ensures var s' := After(s, step);
            && |s.log| <= |s'.log| && Timely(s', stamps + Repeat(t, |s'.log| - |s.log|), t)
  {
    match step
    case Announce(entry, _) => AnnounceKeepsTime(s, stamps, clock, entry, t);
    case Sweep(_, ids) => SweepKeepsTime(s, stamps, clock, ids, t);
    case ProbeOk(id) => SuccessKeepsTime(s, stamps, clock, id, t);
    case ProbeFails(id) => FailureKeepsTime(s, stamps, clock, id, t);
  }

  /** In every timed run the log alternates, and offline comes late. */
  lemma {:induction false} TimedReachable(self: Id, run: seq<State>, steps: seq<Step>, times: seq<int>, n: nat)
    requires IsTimed(self, run, steps, times) && n < |run|
    ensures Timely(run[n], StampsOf(run, times, n), if n > 0 then times[n - 1] else if |times| > 0 then times[0] else 0)
  {
    if n == 0 {
      assert Seen(map[]) == map[];
    } else {
      TimedReachable(self, run, steps, times, n - 1);
      assert ReadsClock(steps[n - 1], times[n - 1]);
      TimeKeeps(run[n - 1], StampsOf(run, times, n - 1), if n > 1 then times[n - 2] else times[0], steps[n - 1], times[n - 1]);
    }
  }
}
