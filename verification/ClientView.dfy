/** What a client sees of a timed run, through windows that are coalesced. */
module ClientView {
  import opened Bytes
  import opened EventLog
  import opened Coalesce
  import opened EventClock
  import Txt
  import Text

  /** log[a..b] is a window whose events lie at most 30 seconds apart. */
  ghost predicate Window(log: seq<Event>, stamps: seq<int>, a: nat, b: nat) {
    LogOk(log, stamps) && a <= b <= |log| && Narrow(stamps, a, b)
  }

  predicate Narrow(stamps: seq<int>, a: nat, b: nat) {
    a < b <= |stamps| ==> stamps[b - 1] - stamps[a] <= 30
  }

  // ---- within a window a device goes offline once at most ----

  lemma ReplayOne(log: seq<Event>, m: nat)
    requires m < |log|
    ensures Replay(map[], log[..m + 1]) == Apply(Replay(map[], log[..m]), log[m])
  {
    assert log[..m + 1] == log[..m] + [log[m]];
    ReplayMore(map[], log[..m], log[m]);
  }

  /** The device of log[i] is there before log[m], or not, as log[i] left it. */
  ghost predicate AsLeft(log: seq<Event>, i: nat, m: nat)
    requires i < |log| && m <= |log|
  {
    log[i].device.id in Replay(map[], log[..m]) <==> log[i].kind == BecameOnline
  }

  predicate TurnsAround(was: Event, e: Event) {
    e.device.id == was.device.id && e.kind != Updated && e.kind != was.kind
  }

  lemma TurnNext(log: seq<Event>, i: nat, m: nat)
    requires Alternates(log) && i < m < |log| && log[i].kind != Updated && AsLeft(log, i, m)
    ensures TurnsAround(log[i], log[m]) || AsLeft(log, i, m + 1)
  {
    ReplayOne(log, m);
    assert AlternatesAt(log, m);
  }

  /** From one event of a device to another: it stays as the first left it, unless it turns in between. */
  lemma {:induction false} Turns(log: seq<Event>, i: nat, m: nat) returns (k: nat)
    requires Alternates(log) && i < m <= |log| && log[i].kind != Updated
    ensures if k < m then i < k && TurnsAround(log[i], log[k]) else AsLeft(log, i, m)
    decreases m
  {
    if m == i + 1 {
      ReplayOne(log, i);
      k := m;
    } else {
      k := Turns(log, i, m - 1);
      if k >= m - 1 {
        TurnNext(log, i, m - 1);
        k := if TurnsAround(log[i], log[m - 1]) then m - 1 else m;
      }
    }
  }

  lemma SpanBound(log: seq<Event>, stamps: seq<int>, a: nat, b: nat, i: nat, j: nat)
    requires Window(log, stamps, a, b) && a <= i <= j < b
    ensures stamps[j] - stamps[i] <= 30
  {
    assert a < i ==> stamps[a] <= stamps[i];
    assert j < b - 1 ==> stamps[j] <= stamps[b - 1];
  }

  /** What comes twice in a window is an update. */
  lemma TwiceIsUpdate(log: seq<Event>, stamps: seq<int>, a: nat, b: nat, i: nat, j: nat)
    requires Window(log, stamps, a, b) && a <= i < j < b && KeyOf(log[i]) == KeyOf(log[j])
    ensures log[j].kind == Updated
  {
    if log[i].kind != Updated {
      assert AlternatesAt(log, j);
      var k := Turns(log, i, j);
      SpanBound(log, stamps, a, b, i, j);
      if k < j {
        SpanBound(log, stamps, a, b, i, k);
        SpanBound(log, stamps, a, b, k, j);
      }
    }
  }

  lemma FinalMore(w: seq<Event>, e: Event, id: Id)
    ensures Final(w + [e], id) == if e.device.id == id then Some(e) else Final(w, id)
  {
    assert (w + [e])[..|w|] == w;
  }

  lemma {:induction false} FinalOfSuffix(log: seq<Event>, a: nat, b: nat, id: Id)
    requires a <= b <= |log| && Final(log[a..b], id).Some?
    ensures Final(log[..b], id) == Final(log[a..b], id)
  {
    var w := log[a..b];
    assert log[..b] == log[..b - 1] + [log[b - 1]] && w == log[a..b - 1] + [log[b - 1]];
    FinalMore(log[..b - 1], log[b - 1], id);
    FinalMore(log[a..b - 1], log[b - 1], id);
    if log[b - 1].device.id != id {
      FinalOfSuffix(log, a, b - 1, id);
    }
  }

  /** Before an update the device is there, so the last event about it was not that it went. */
  lemma BeforeUpdate(log: seq<Event>, a: nat, j: nat)
    requires Alternates(log) && a <= j < |log| && log[j].kind == Updated && Final(log[a..j], log[j].device.id).Some?
    ensures Final(log[a..j], log[j].device.id).value.kind != WentOffline
  {
    assert AlternatesAt(log, j);
    FinalOfSuffix(log, a, j, log[j].device.id);
    ReplayAt(map[], log[..j], log[j].device.id);
  }

  ghost predicate LastWordFits(w: seq<Event>, id: Id)
    requires Final(w, id).Some?
  {
    var k := NewestKey(Keys(w), id);
    k.Some? && (k.value == KeyOf(Final(w, id).value) || (k.value.kind == BecameOnline && Final(w, id).value.kind == Updated))
  }

  lemma WindowShrinks(log: seq<Event>, stamps: seq<int>, a: nat, b: nat)
    requires Window(log, stamps, a, b) && a < b
    ensures Window(log, stamps, a, b - 1)
  {
    assert a < b - 1 ==> stamps[b - 2] <= stamps[b - 1];
  }

  lemma KeysMore(w: seq<Event>, e: Event)
    ensures Keys(w + [e]) == if KeyOf(e) in Keys(w) then Keys(w) else Keys(w) + [KeyOf(e)]
  {
    assert (w + [e])[..|w|] == w;
  }

  lemma KeySeen(w: seq<Event>, e: Event) returns (i: nat)
    requires KeyOf(e) in Keys(w)
    ensures i < |w| && KeyOf(w[i]) == KeyOf(e) && Final(w, e.device.id).Some?
  {
    i :| 0 <= i < |w| && KeyOf(w[i]) == KeyOf(e);
    FinalIff(w, e.device.id);
  }

  /** An event whose key the window has already is an update of a device that is there. */
  ghost predicate OldIsUpdate(front: seq<Event>, e: Event) {
    KeyOf(e) in Keys(front) ==>
      e.kind == Updated && Final(front, e.device.id).Some? && Final(front, e.device.id).value.kind != WentOffline
  }

  lemma OldKeyIsUpdate(log: seq<Event>, stamps: seq<int>, a: nat, b: nat)
    requires Window(log, stamps, a, b) && a < b
    ensures OldIsUpdate(log[a..b - 1], log[b - 1])
  {
    var front := log[a..b - 1];
    if KeyOf(log[b - 1]) in Keys(front) {
      var i := KeySeen(front, log[b - 1]);
      assert front[i] == log[a + i];
      TwiceIsUpdate(log, stamps, a, b, a + i, b - 1);
      BeforeUpdate(log, a, b - 1);
    }
  }

  /** An update of a device that is there changes nothing about who has the last word. */
  lemma UpdateFits(front: seq<Event>, e: Event)
    requires e.kind == Updated && KeyOf(e) in Keys(front)
    requires Final(front, e.device.id).Some? && Final(front, e.device.id).value.kind != WentOffline
    requires LastWordFits(front, e.device.id)
    ensures Final(front + [e], e.device.id) == Some(e) && LastWordFits(front + [e], e.device.id)
  {
    FinalMore(front, e, e.device.id);
    KeysMore(front, e);
  }

  lemma NewKeyFits(front: seq<Event>, e: Event)
    requires KeyOf(e) !in Keys(front)
    ensures Final(front + [e], e.device.id) == Some(e) && LastWordFits(front + [e], e.device.id)
  {
    FinalMore(front, e, e.device.id);
    KeysMore(front, e);
    NewestMore(Keys(front), KeyOf(e), e.device.id);
  }

  lemma OtherFits(front: seq<Event>, e: Event, id: Id)
    requires e.device.id != id && Final(front, id).Some? && LastWordFits(front, id)
    ensures Final(front + [e], id).Some? && LastWordFits(front + [e], id)
  {
    FinalMore(front, e, id);
    KeysMore(front, e);
    NewestMore(Keys(front), KeyOf(e), id);
  }

  /** One more event: if its key is new it has the last word; if not, it is an update. */
  lemma FitsMore(front: seq<Event>, e: Event, id: Id)
    requires OldIsUpdate(front, e) && Final(front + [e], id).Some?
    requires Final(front, id).Some? ==> LastWordFits(front, id)
    ensures LastWordFits(front + [e], id)
  {
    FinalMore(front, e, id);
    if e.device.id != id {
      OtherFits(front, e, id);
    } else if KeyOf(e) !in Keys(front) {
      NewKeyFits(front, e);
    } else {
      UpdateFits(front, e);
    }
  }

  lemma WindowMore(log: seq<Event>, a: nat, b: nat)
    requires a < b <= |log|
    ensures log[a..b] == log[a..b - 1] + [log[b - 1]]
  {
  }

  /** Within a window the last word about a device is its last event, or its appearance when only updates
      have followed. */
  lemma {:induction false} LastWordInWindow(log: seq<Event>, stamps: seq<int>, a: nat, b: nat, id: Id)
    requires Window(log, stamps, a, b) && Final(log[a..b], id).Some?
    ensures LastWordFits(log[a..b], id)
    decreases b
  {
    WindowShrinks(log, stamps, a, b);
    if Final(log[a..b - 1], id).Some? {
      LastWordInWindow(log, stamps, a, b - 1, id);
    }
    OldKeyIsUpdate(log, stamps, a, b);
    WindowMore(log, a, b);
    FitsMore(log[a..b - 1], log[b - 1], id);
  }

  /** So coalescing a window never changes which devices a client shows. */
  lemma WindowKeepsPresence(v: View, log: seq<Event>, stamps: seq<int>, a: nat, b: nat, id: Id)
    requires Window(log, stamps, a, b)
    ensures id in Replay(v, Coalesced(log[a..b])) <==> id in Replay(v, log[a..b])
  {
    var w := log[a..b];
    KeysHaveEvents(w);
    ReplayAt(v, w, id);
    ReplayAt(v, Coalesced(w), id);
    FinalOfLatest(w, Keys(w), id);
    LastWordIff(w, id);
    if Final(w, id).Some? {
      LastWordInWindow(log, stamps, a, b, id);
    }
  }

  lemma PresenceIsKept(self: Id, run: seq<State>, steps: seq<Step>, times: seq<int>, n: nat, a: nat, b: nat, v: View, id: Id)
    requires IsTimed(self, run, steps, times) && n < |run|
    requires a <= b <= |run[n].log| && Narrow(StampsOf(run, times, n), a, b)
    ensures id in Replay(v, Coalesced(run[n].log[a..b])) <==> id in Replay(v, run[n].log[a..b])
  {
    TimedReachable(self, run, steps, times, n);
    WindowKeepsPresence(v, run[n].log, StampsOf(run, times, n), a, b, id);
  }

  // ---- the live record behind an appearance ----

  /** An online event carries the record itself, not a copy, so what is sent is what it holds by then. */
  function Live(e: Event, devices: map<Id, Device>): Event {
    if e.kind == BecameOnline && e.device.id in devices then e.(device := devices[e.device.id]) else e
  }

  function AllLive(es: seq<Event>, devices: map<Id, Device>): (r: seq<Event>)
    ensures |r| == |es| && forall i :: 0 <= i < |r| ==> r[i] == Live(es[i], devices)
  {
    seq(|es|, i requires 0 <= i < |es| => Live(es[i], devices))
  }

  lemma {:induction false} FinalOfLive(es: seq<Event>, devices: map<Id, Device>, id: Id)
    requires forall d :: d in devices ==> devices[d].id == d
    ensures Final(AllLive(es, devices), id) ==
            match Final(es, id) case None => None case Some(e) => Some(Live(e, devices))
  {
    if es != [] {
      var n := |es| - 1;
      FinalOfLive(es[..n], devices, id);
      assert AllLive(es, devices)[..n] == AllLive(es[..n], devices);
    }
  }

  /** The last event about a device in a window that ends now tells what the map holds. */
  lemma FinalIsNow(s: State, a: nat, id: Id)
    requires LogAgrees(s) && a <= |s.log| && Final(s.log[a..], id).Some?
    ensures Effect(Final(s.log[a..], id).value) == At(Seen(s.devices), id)
  {
    var b := |s.log|;
    assert s.log[a..b] == s.log[a..] && s.log[..b] == s.log;
    FinalOfSuffix(s.log, a, b, id);
    ReplayAt(map[], s.log, id);
  }

  lemma LiveEffect(s: State, stamps: seq<int>, a: nat, id: Id)
    requires LogAgrees(s) && Window(s.log, stamps, a, |s.log|) && Final(s.log[a..], id).Some?
    requires LastWord(s.log[a..], id).Some?
    ensures Effect(Live(LastWord(s.log[a..], id).value, s.devices)) == Effect(Final(s.log[a..], id).value)
  {
    var w := s.log[a..];
    assert s.log[a..|s.log|] == w;
    LastWordInWindow(s.log, stamps, a, |s.log|, id);
    FinalIsLatest(w, id);
    FinalIsNow(s, a, id);
    LiveLastWord(s, w, id);
  }

  lemma LiveLastWord(s: State, w: seq<Event>, id: Id)
    requires Final(w, id).Some? && LastWordFits(w, id) && LastWord(w, id).Some?
    requires Latest(w, KeyOf(Final(w, id).value)) == Final(w, id)
    requires Effect(Final(w, id).value) == At(Seen(s.devices), id)
    ensures Effect(Live(LastWord(w, id).value, s.devices)) == Effect(Final(w, id).value)
  {
  }

  /** With the live record, a window that is flushed at its end loses nothing at all. */
  lemma LiveKeepsView(s: State, stamps: seq<int>, a: nat, v: View)
    requires LogAgrees(s) && Window(s.log, stamps, a, |s.log|)
    ensures Replay(v, AllLive(Coalesced(s.log[a..]), s.devices)) == Replay(v, s.log[a..])
  {
    var w := s.log[a..];
    var x, y := Replay(v, AllLive(Coalesced(w), s.devices)), Replay(v, w);
    KeysHaveEvents(w);
    forall id ensures At(x, id) == At(y, id) {
      ReplayAt(v, w, id);
      ReplayAt(v, AllLive(Coalesced(w), s.devices), id);
      FinalOfLive(Coalesced(w), s.devices, id);
      FinalOfLatest(w, Keys(w), id);
      LastWordIff(w, id);
      if Final(w, id).Some? { LiveEffect(s, stamps, a, id); }
    }
    assert forall id :: (id in x <==> id in y) && (id in x ==> x[id] == y[id]) by {
      forall id ensures (id in x <==> id in y) && (id in x ==> x[id] == y[id]) { assert At(x, id) == At(y, id); }
    }
  }

  // ---- a client of a whole run ----

  /** Where window k begins: where the one before it ended. */
  function StartOf(run: seq<State>, cuts: seq<nat>, k: nat): nat {
    if 0 < k <= |cuts| && cuts[k - 1] < |run| then |run[cuts[k - 1]].log| else 0
  }

  /** The flushes, one after the other: window k is sent in the state run[cuts[k]]. */
  ghost predicate IsFlushed(run: seq<State>, times: seq<int>, cuts: seq<nat>)
    requires |times| + 1 == |run|
  {
    && (forall k :: 0 <= k < |cuts| ==> cuts[k] < |run|)
    && (forall k :: 0 < k < |cuts| ==> cuts[k - 1] <= cuts[k])
    && (forall k :: 0 <= k < |cuts| ==>
         Narrow(StampsOf(run, times, cuts[k]), StartOf(run, cuts, k), |run[cuts[k]].log|))
  }

  lemma {:induction false} LogGrows(self: Id, run: seq<State>, steps: seq<Step>, times: seq<int>, i: nat, j: nat)
    requires IsTimed(self, run, steps, times) && i <= j < |run|
    ensures run[i].log <= run[j].log
    decreases j
  {
    if i < j {
      LogGrows(self, run, steps, times, i, j - 1);
      StepAppends(run[j - 1], steps[j - 1]);
    }
  }

  lemma StepAppends(s: State, step: Step)
    requires Enabled(s, step)
    ensures s.log <= After(s, step).log
  {
  }

  ghost function SentBy(run: seq<State>, cuts: seq<nat>, k: nat): seq<Event>
    requires k <= |cuts| && forall i :: 0 <= i < |cuts| ==> cuts[i] < |run|
  {
    if k == 0 then []
    else
      var s, a := run[cuts[k - 1]], StartOf(run, cuts, k - 1);
      SentBy(run, cuts, k - 1) + if a <= |s.log| then AllLive(Coalesced(s.log[a..]), s.devices) else []
  }

  /** A client that receives every window shows, after each flush, exactly the device map of that moment. */
  lemma {:induction false} ClientShowsMapNow(self: Id, run: seq<State>, steps: seq<Step>, times: seq<int>, cuts: seq<nat>, k: nat)
    requires IsTimed(self, run, steps, times) && IsFlushed(run, times, cuts) && 0 < k <= |cuts|
    ensures Replay(map[], SentBy(run, cuts, k)) == Seen(run[cuts[k - 1]].devices)
  {
    var s, a := run[cuts[k - 1]], StartOf(run, cuts, k - 1);
    TimedReachable(self, run, steps, times, cuts[k - 1]);
    if k > 1 {
      var before := run[cuts[k - 2]];
      ClientShowsMapNow(self, run, steps, times, cuts, k - 1);
      TimedReachable(self, run, steps, times, cuts[k - 2]);
      LogGrows(self, run, steps, times, cuts[k - 2], cuts[k - 1]);
      assert before.log == s.log[..a];
    }
    OneFlush(s, StampsOf(run, times, cuts[k - 1]), a, SentBy(run, cuts, k - 1));
  }

  lemma OneFlush(s: State, stamps: seq<int>, a: nat, sent: seq<Event>)
    requires LogAgrees(s) && Window(s.log, stamps, a, |s.log|)
    requires Replay(map[], sent) == Replay(map[], s.log[..a])
    ensures Replay(map[], sent + AllLive(Coalesced(s.log[a..]), s.devices)) == Seen(s.devices)
  {
    var v := Replay(map[], sent);
    ReplayAppend(map[], sent, AllLive(Coalesced(s.log[a..]), s.devices));
    LiveKeepsView(s, stamps, a, v);
    ReplayAppend(map[], s.log[..a], s.log[a..]);
    assert s.log == s.log[..a] + s.log[a..];
  }

  // ---- two runs that show where the bounds are ----

  /** A peer that announces this name under this hash. */
  function Plain(name: Bytes, hash: Bytes): Entry
    requires Text.IsPkHash(hash)
  {
    Entry(Txt.BuildTXT(1, name, hash, [], Text.Ascii("4")).lines, [], [], [])
  }

  function PlainRecord(name: Bytes, hash: Bytes): Txt.TxtRecord {
    Txt.Own(1, name, hash, [], Text.Ascii("4"))
  }

  lemma PlainParses(name: Bytes, hash: Bytes)
    requires Text.IsPkHash(hash)
    ensures Txt.Parsed(Plain(name, hash).text) == Txt.Ok(PlainRecord(name, hash))
  {
    Txt.AnnouncementRoundTripIff(1, name, hash, [], Text.Ascii("4"));
  }

  function PlainDevice(name: Bytes, hash: Bytes, now: int): Device
    requires Text.IsPkHash(hash)
  {
    NewDevice(PlainRecord(name, hash), Plain(name, hash), now)
  }

  lemma Announced(s: State, name: Bytes, hash: Bytes, now: int)
    requires Text.IsPkHash(hash) && hash != s.self
    ensures HandleEntry(s, Plain(name, hash), now) == Absorbed(s, PlainRecord(name, hash), Plain(name, hash), now)
  {
    PlainParses(name, hash);
  }

  lemma SweptOne(s: State, hash: Bytes, now: int)
    requires s.devices.Keys == {hash} && Stale(s.devices[hash], now)
    ensures IsSweep(s.devices, now, [hash])
    ensures Reap(s, now, [hash]) == s.(devices := map[], log := s.log + [Event(WentOffline, s.devices[hash])])
  {
    assert [hash][..0] == [];
    assert IdSet([hash]) == {hash};
    assert s.devices - {hash} == map[];
  }

  datatype Trace = Trace(run: seq<State>, steps: seq<Step>, times: seq<int>)

  /** A timed run whose last state is s, at time t, with these stamps. */
  ghost predicate EndsAt(self: Id, tr: Trace, s: State, t: int, stamps: seq<int>) {
    && IsTimed(self, tr.run, tr.steps, tr.times) && |tr.run| == |tr.steps| + 1
    && tr.run[|tr.steps|] == s && (|tr.times| > 0 ==> tr.times[|tr.times| - 1] <= t)
    && StampsOf(tr.run, tr.times, |tr.steps|) == stamps
  }

  function Start(self: Id): Trace {
    Trace([Init(self)], [], [])
  }

  lemma {:induction false} StampsOfPrefix(run: seq<State>, times: seq<int>, s: State, t: int, n: nat)
    requires n < |run| && |times| + 1 == |run|
    ensures StampsOf(run + [s], times + [t], n) == StampsOf(run, times, n)
  {
    if n > 0 {
      StampsOfPrefix(run, times, s, t, n - 1);
    }
  }

  lemma ExtendRun(self: Id, tr: Trace, s: State, step: Step, s': State)
    requires IsRun(self, tr.run, tr.steps) && tr.run[|tr.steps|] == s
    requires Enabled(s, step) && s' == After(s, step)
    ensures IsRun(self, tr.run + [s'], tr.steps + [step])
  {
    var run, steps := tr.run + [s'], tr.steps + [step];
    forall i | 0 <= i < |steps| ensures Enabled(run[i], steps[i]) && run[i + 1] == After(run[i], steps[i]) {
      if i < |tr.steps| {
        assert steps[i] == tr.steps[i];
      }
    }
  }

  lemma ExtendTimes(self: Id, tr: Trace, s: State, clock: int, step: Step, s': State, t: int)
    requires IsTimed(self, tr.run, tr.steps, tr.times) && IsRun(self, tr.run + [s'], tr.steps + [step])
    requires (|tr.times| > 0 ==> tr.times[|tr.times| - 1] <= clock) && clock <= t && ReadsClock(step, t)
    ensures IsTimed(self, tr.run + [s'], tr.steps + [step], tr.times + [t])
  {
    var n, steps, times := |tr.times|, tr.steps + [step], tr.times + [t];
    forall i, j | 0 <= i < j < |times| ensures times[i] <= times[j] {
      assert i < n - 1 ==> tr.times[i] <= tr.times[n - 1];
    }
    forall i | 0 <= i < |steps| ensures ReadsClock(steps[i], times[i]) {
      assert i < n ==> steps[i] == tr.steps[i];
    }
  }

  lemma ExtendStamps(tr: Trace, s: State, stamps: seq<int>, s': State, t: int)
    requires |tr.times| + 1 == |tr.run| && tr.run[|tr.times|] == s && |s.log| <= |s'.log|
    requires StampsOf(tr.run, tr.times, |tr.times|) == stamps
    ensures StampsOf(tr.run + [s'], tr.times + [t], |tr.times| + 1) == stamps + Repeat(t, |s'.log| - |s.log|)
  {
    StampsOfPrefix(tr.run, tr.times, s', t, |tr.times|);
  }

  lemma Extend(self: Id, tr: Trace, s: State, clock: int, stamps: seq<int>, step: Step, s': State, t: int) returns (next: Trace)
    requires EndsAt(self, tr, s, clock, stamps) && clock <= t
    requires Enabled(s, step) && s' == After(s, step) && ReadsClock(step, t) && |s.log| <= |s'.log|
    ensures next == Trace(tr.run + [s'], tr.steps + [step], tr.times + [t])
    ensures EndsAt(self, next, s', t, stamps + Repeat(t, |s'.log| - |s.log|))
  {
    next := Trace(tr.run + [s'], tr.steps + [step], tr.times + [t]);
    ExtendRun(self, tr, s, step, s');
    ExtendTimes(self, tr, s, clock, step, s', t);
    ExtendStamps(tr, s, stamps, s', t);
  }

  lemma Appears(s: State, name: Bytes, hash: Bytes, now: int) returns (s': State)
    requires Text.IsPkHash(hash) && hash != s.self && s.devices == map[]
    ensures s' == After(s, Announce(Plain(name, hash), now))
    ensures s' == s.(devices := map[hash := PlainDevice(name, hash, now)],
                     log := s.log + [Event(BecameOnline, PlainDevice(name, hash, now))])
  {
    Announced(s, name, hash, now);
    s' := HandleEntry(s, Plain(name, hash), now);
    assert map[][hash := PlainDevice(name, hash, now)] == map[hash := PlainDevice(name, hash, now)];
  }

  lemma Disappears(s: State, hash: Bytes, now: int) returns (s': State)
    requires s.devices.Keys == {hash} && Stale(s.devices[hash], now)
    ensures Enabled(s, Sweep(now, [hash])) && s' == After(s, Sweep(now, [hash]))
    ensures s' == s.(devices := map[], log := s.log + [Event(WentOffline, s.devices[hash])])
  {
    SweptOne(s, hash, now);
    s' := Reap(s, now, [hash]);
  }

  lemma AppearsTo(self: Id, tr: Trace, s: State, clock: int, stamps: seq<int>, name: Bytes, hash: Bytes, t: int)
    returns (next: Trace, s': State)
    requires EndsAt(self, tr, s, clock, stamps) && clock <= t && s.self == self
    requires Text.IsPkHash(hash) && hash != self && s.devices == map[]
    ensures EndsAt(self, next, s', t, stamps + [t]) && |next.run| == |tr.run| + 1 && next.times == tr.times + [t]
    ensures s' == s.(devices := map[hash := PlainDevice(name, hash, t)],
                     log := s.log + [Event(BecameOnline, PlainDevice(name, hash, t))])
  {
    s' := Appears(s, name, hash, t);
    next := Extend(self, tr, s, clock, stamps, Announce(Plain(name, hash), t), s', t);
    assert Repeat(t, 1) == [t];
  }

  lemma DisappearsTo(self: Id, tr: Trace, s: State, clock: int, stamps: seq<int>, hash: Bytes, t: int)
    returns (next: Trace, s': State)
    requires EndsAt(self, tr, s, clock, stamps) && clock <= t && s.devices.Keys == {hash} && Stale(s.devices[hash], t)
    ensures EndsAt(self, next, s', t, stamps + [t]) && |next.run| == |tr.run| + 1 && next.times == tr.times + [t]
    ensures s' == s.(devices := map[], log := s.log + [Event(WentOffline, s.devices[hash])])
  {
    s' := Disappears(s, hash, t);
    next := Extend(self, tr, s, clock, stamps, Sweep(t, [hash]), s', t);
    assert Repeat(t, 1) == [t];
  }

  lemma SharpRun(self: Id, name: Bytes, hash: Bytes) returns (tr: Trace, last: State)
    requires Text.IsPkHash(hash) && hash != self
    ensures EndsAt(self, tr, last, 31, [0] + [31] + [31]) && |tr.run| == 4 && tr.times == [0] + [31] + [31]
    ensures var d, back := PlainDevice(name, hash, 0), PlainDevice(name, hash, 31);
            && last.devices == map[hash := back]
            && last.log == [Event(BecameOnline, d)] + [Event(WentOffline, d)] + [Event(BecameOnline, back)]
  {
    var s1, s2;
    EmptyFirst(0);
    tr, s1 := AppearsTo(self, Start(self), Init(self), 0, [], name, hash, 0);
    tr, s2 := DisappearsTo(self, tr, s1, 0, [0], hash, 31);
    tr, last := AppearsTo(self, tr, s2, 31, [0] + [31], name, hash, 31);
    EmptyFirst(Event(BecameOnline, PlainDevice(name, hash, 0)));
  }

  lemma EmptyFirst<T>(x: T)
    ensures [] + [x] == [x]
  {
  }

  /** The bound is sharp: a client that is not sent anything for 31 seconds can lose a device that is there. */
  lemma ThirtyIsSharp(self: Id, name: Bytes, hash: Bytes) returns (tr: Trace)
    requires Text.IsPkHash(hash) && hash != self
    ensures IsTimed(self, tr.run, tr.steps, tr.times) && |tr.run| == 4 && tr.times == [0, 31, 31]
    ensures |tr.run[3].log| == 3 && hash in tr.run[3].devices && hash !in Replay(map[], Coalesced(tr.run[3].log))
  {
    var last;
    tr, last := SharpRun(self, name, hash);
    LostInOneWindow(last.log, PlainDevice(name, hash, 0), PlainDevice(name, hash, 31));
  }

  lemma LostInOneWindow(log: seq<Event>, d: Device, back: Device)
    requires log == [Event(BecameOnline, d)] + [Event(WentOffline, d)] + [Event(BecameOnline, back)] && d.id == back.id
    ensures |log| == 3 && d.id !in Replay(map[], Coalesced(log))
  {
    assert log == [Event(BecameOnline, d), Event(WentOffline, d), Event(BecameOnline, back)];
    ComingBackIsLost(d, back);
  }

  lemma LatestMore(w: seq<Event>, e: Event, k: Key)
    ensures Latest(w + [e], k) == if KeyOf(e) == k then Some(e) else Latest(w, k)
  {
    assert (w + [e])[..|w|] == w;
  }

  lemma TwoKeys(u: Event, off: Event) returns (w: seq<Event>)
    requires u.kind == Updated && off.kind == WentOffline
    ensures w == [] + [u] + [off] && Keys(w) == [] + [KeyOf(u)] + [KeyOf(off)]
  {
    var none: seq<Event> := [];
    KeysMore(none, u);
    KeysMore(none + [u], off);
    w := none + [u] + [off];
  }

  lemma ThreeKeys(u: Event, off: Event, on: Event) returns (w: seq<Event>)
    requires u.device.id == off.device.id == on.device.id
    requires u.kind == Updated && off.kind == WentOffline && on.kind == BecameOnline
    ensures w == [] + [u] + [off] + [on] && KeyOf(u) in Keys(w) && Latest(w, KeyOf(on)) == Some(on)
    ensures NewestKey(Keys(w), on.device.id) == Some(KeyOf(on))
  {
    var two := TwoKeys(u, off);
    w := two + [on];
    KeysMore(two, on);
    NewestMore(Keys(two), KeyOf(on), on.device.id);
    LatestMore(two, on, KeyOf(on));
  }

  /** An update that comes again after the device went and came back leaves the appearance the last word. */
  lemma AppearanceHasLastWord(u: Event, off: Event, on: Event, u': Event, id: Id)
    requires u.device.id == off.device.id == on.device.id == u'.device.id == id
    requires u.kind == u'.kind == Updated && off.kind == WentOffline && on.kind == BecameOnline
    ensures var w := [] + [u] + [off] + [on] + [u'];
            LastWord(w, id) == Some(on) && Final(w, id) == Some(u')
  {
    var w := ThreeKeys(u, off, on);
    KeysMore(w, u');
    LatestMore(w, u', KeyOf(on));
    FinalMore(w, u', id);
  }

  /** Between two flushes, an update, offline, online and another update: with copies in the events, the
      client would show the fields of the appearance instead of the last ones. */
  lemma CopyIsStale(v: View, u: Event, off: Event, on: Event, u': Event, id: Id)
    requires u.device.id == off.device.id == on.device.id == u'.device.id == id
    requires u.kind == u'.kind == Updated && off.kind == WentOffline && on.kind == BecameOnline
    ensures var w := [u, off, on, u'];
            && At(Replay(v, w), id) == Some(Visible(u'.device))
            && At(Replay(v, Coalesced(w)), id) == Some(Visible(on.device))
  {
    var w := [u, off, on, u'];
    assert w == [] + [u] + [off] + [on] + [u'];
    AppearanceHasLastWord(u, off, on, u', id);
    KeysHaveEvents(w);
    ReplayAt(v, w, id);
    ReplayAt(v, Coalesced(w), id);
    FinalOfLatest(w, Keys(w), id);
  }

  lemma FailsOnce(s: State, hash: Bytes) returns (s': State)
    requires Failures(s, hash) < 2
    ensures s' == After(s, ProbeFails(hash)) && s'.log == s.log && s'.devices == s.devices && s'.self == s.self
    ensures Failures(s', hash) == Failures(s, hash) + 1
  {
    s' := OnFailure(s, hash);
  }

  lemma TurnsGray(s: State, hash: Bytes) returns (s': State)
    requires Failures(s, hash) == 2 && hash in s.devices && s.devices[hash].status == Online && s.devices.Keys == {hash}
    ensures s' == After(s, ProbeFails(hash)) && s'.self == s.self
    ensures var d := s.devices[hash].(status := Gray);
            s'.devices == map[hash := d] && s'.log == s.log + [Event(Updated, d)]
  {
    s' := OnFailure(s, hash);
    assert s.devices[hash := s.devices[hash].(status := Gray)] == map[hash := s.devices[hash].(status := Gray)];
  }

  lemma Renames(s: State, name: Bytes, other: Bytes, hash: Bytes, now: int) returns (s': State)
    requires Text.IsPkHash(hash) && hash != s.self && s.devices == map[hash := PlainDevice(name, hash, now)] && name != other
    ensures s' == After(s, Announce(Plain(other, hash), now))
    ensures |s'.log| == |s.log| + 1 && s'.log == s.log + [s'.log[|s.log|]]
    ensures var e := s'.log[|s.log|]; e.kind == Updated && e.device.id == hash && e.device.name == other
  {
    Announced(s, other, hash, now);
    s' := HandleEntry(s, Plain(other, hash), now);
  }

  lemma FailsTo(self: Id, tr: Trace, s: State, clock: int, stamps: seq<int>, hash: Bytes, t: int)
    returns (next: Trace, s': State)
    requires EndsAt(self, tr, s, clock, stamps) && clock <= t && Failures(s, hash) < 2
    ensures EndsAt(self, next, s', t, stamps) && s'.log == s.log && s'.devices == s.devices && s'.self == s.self
    ensures Failures(s', hash) == Failures(s, hash) + 1
  {
    s' := FailsOnce(s, hash);
    next := Extend(self, tr, s, clock, stamps, ProbeFails(hash), s', t);
    assert stamps + Repeat(t, 0) == stamps;
  }

  lemma GraysTo(self: Id, tr: Trace, s: State, clock: int, stamps: seq<int>, hash: Bytes, t: int)
    returns (next: Trace, s': State)
    requires EndsAt(self, tr, s, clock, stamps) && clock <= t && Failures(s, hash) == 2
    requires s.devices.Keys == {hash} && s.devices[hash].status == Online
    ensures EndsAt(self, next, s', t, stamps + [t]) && s'.self == s.self
    ensures var d := s.devices[hash].(status := Gray);
            s'.devices == map[hash := d] && s'.log == s.log + [Event(Updated, d)]
  {
    s' := TurnsGray(s, hash);
    next := Extend(self, tr, s, clock, stamps, ProbeFails(hash), s', t);
    assert Repeat(t, 1) == [t];
  }

  lemma RenamesTo(self: Id, tr: Trace, s: State, clock: int, stamps: seq<int>, name: Bytes, other: Bytes, hash: Bytes, t: int)
    returns (next: Trace, s': State)
    requires EndsAt(self, tr, s, clock, stamps) && clock <= t && s.self == self && name != other
    requires Text.IsPkHash(hash) && hash != self && s.devices == map[hash := PlainDevice(name, hash, t)]
    ensures EndsAt(self, next, s', t, stamps + [t])
    ensures |s'.log| == |s.log| + 1 && s'.log == s.log + [s'.log[|s.log|]]
    ensures var e := s'.log[|s.log|]; e.kind == Updated && e.device.id == hash && e.device.name == other
  {
    s' := Renames(s, name, other, hash, t);
    next := Extend(self, tr, s, clock, stamps, Announce(Plain(other, hash), t), s', t);
    assert Repeat(t, 1) == [t];
  }

  lemma FailsTwice(self: Id, tr: Trace, s: State, stamps: seq<int>, hash: Bytes) returns (next: Trace, s': State)
    requires EndsAt(self, tr, s, 0, stamps) && Failures(s, hash) == 0
    ensures EndsAt(self, next, s', 26, stamps) && s'.log == s.log && s'.devices == s.devices && s'.self == s.self
    ensures Failures(s', hash) == 2
  {
    next, s' := FailsTo(self, tr, s, 0, stamps, hash, 21);
    next, s' := FailsTo(self, next, s', 21, stamps, hash, 26);
  }

  /** A device that is found, fails three probes and turns gray. */
  lemma GrayRun(self: Id, name: Bytes, hash: Bytes) returns (tr: Trace, s: State)
    requires Text.IsPkHash(hash) && hash != self
    ensures EndsAt(self, tr, s, 31, [0] + [31]) && s.self == self
    ensures var d := PlainDevice(name, hash, 0);
            s.devices == map[hash := d.(status := Gray)]
            && s.log == [Event(BecameOnline, d)] + [Event(Updated, d.(status := Gray))]
  {
    EmptyFirst(0);
    EmptyFirst(Event(BecameOnline, PlainDevice(name, hash, 0)));
    tr, s := AppearsTo(self, Start(self), Init(self), 0, [], name, hash, 0);
    tr, s := FailsTwice(self, tr, s, [0], hash);
    tr, s := GraysTo(self, tr, s, 26, [0], hash, 31);
  }

  /** It goes offline, comes back and is renamed. */
  lemma ReturnRun(self: Id, tr0: Trace, s0: State, stamps: seq<int>, name: Bytes, other: Bytes, hash: Bytes)
    returns (tr: Trace, s: State)
    requires Text.IsPkHash(hash) && hash != self && name != other && s0.self == self
    requires EndsAt(self, tr0, s0, 31, stamps) && s0.devices.Keys == {hash} && Stale(s0.devices[hash], 31)
    ensures EndsAt(self, tr, s, 31, stamps + [31] + [31] + [31]) && |s.log| == |s0.log| + 3
    ensures forall i :: 0 <= i < |s0.log| ==> s.log[i] == s0.log[i]
    ensures s.log[|s0.log|] == Event(WentOffline, s0.devices[hash]) && s.log[|s0.log| + 1] == Event(BecameOnline, PlainDevice(name, hash, 31))
    ensures var e := s.log[|s0.log| + 2]; e.kind == Updated && e.device.id == hash && e.device.name == other
  {
    tr, s := DisappearsTo(self, tr0, s0, 31, stamps, hash, 31);
    tr, s := AppearsTo(self, tr, s, 31, stamps + [31], name, hash, 31);
    tr, s := RenamesTo(self, tr, s, 31, stamps + [31] + [31], name, other, hash, 31);
  }

  /** Copies would not do: in this run the last four events come within one window, and a client that is
      sent the copies shows the name the device came back with, not the one it has. */
  lemma CopiesWouldBeStale(self: Id, name: Bytes, other: Bytes, hash: Bytes, v: View) returns (tr: Trace, s: State)
    requires Text.IsPkHash(hash) && hash != self && name != other
    ensures EndsAt(self, tr, s, 31, [0, 31, 31, 31, 31]) && |s.log| == 5 && Narrow([0, 31, 31, 31, 31], 1, 5)
    ensures hash in Replay(v, s.log[1..]) && Replay(v, s.log[1..])[hash].name == other
    ensures hash in Replay(v, Coalesced(s.log[1..])) && Replay(v, Coalesced(s.log[1..]))[hash].name == name
  {
    var tr0, s0;
    tr0, s0 := GrayRun(self, name, hash);
    tr, s := ReturnRun(self, tr0, s0, [0] + [31], name, other, hash);
    FiveStamps();
    StaleTail(s, name, other, hash, v);
  }

  lemma FiveStamps()
    ensures [0] + [31] + [31] + [31] + [31] == [0, 31, 31, 31, 31] && Narrow([0, 31, 31, 31, 31], 1, 5)
  {
  }

  lemma StaleTail(s: State, name: Bytes, other: Bytes, hash: Bytes, v: View)
    requires Text.IsPkHash(hash) && |s.log| == 5
    requires s.log[1].kind == Updated && s.log[1].device.id == hash && s.log[2].kind == WentOffline && s.log[2].device.id == hash
    requires s.log[3] == Event(BecameOnline, PlainDevice(name, hash, 31))
    requires s.log[4].kind == Updated && s.log[4].device.id == hash && s.log[4].device.name == other
    ensures hash in Replay(v, s.log[1..]) && Replay(v, s.log[1..])[hash].name == other
    ensures hash in Replay(v, Coalesced(s.log[1..])) && Replay(v, Coalesced(s.log[1..]))[hash].name == name
  {
    assert s.log[1..] == [s.log[1], s.log[2], s.log[3], s.log[4]];
    CopyIsStale(v, s.log[1], s.log[2], s.log[3], s.log[4], hash);
  }
}
