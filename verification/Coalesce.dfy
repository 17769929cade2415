/** The event stream to a client: bursts are coalesced per event type and device. */
module Coalesce {
  import opened Bytes
  import opened EventLog

  datatype Key = Key(kind: EventType, id: Id)

  function KeyOf(e: Event): Key {
    Key(e.kind, e.device.id)
  }

  /** The keys of a window, each once, in the order they first occur. */
  function Keys(w: seq<Event>): (ks: seq<Key>)
    ensures forall k :: k in ks <==> exists i :: 0 <= i < |w| && KeyOf(w[i]) == k
    ensures forall i, j :: 0 <= i < j < |ks| ==> ks[i] != ks[j]
  {
    if w == [] then []
    else
      var n := |w| - 1;
      var front := Keys(w[..n]);
      assert forall i :: 0 <= i < n ==> w[..n][i] == w[i];
      if KeyOf(w[n]) in front then front else front + [KeyOf(w[n])]
  }

  /** The latest event of a key. */
  function Latest(w: seq<Event>, k: Key): (e: Option<Event>)
    ensures e.Some? ==> KeyOf(e.value) == k
    ensures e.Some? <==> exists i :: 0 <= i < |w| && KeyOf(w[i]) == k
  {
    if w == [] then None
    else
      var n := |w| - 1;
      assert forall i :: 0 <= i < n ==> w[..n][i] == w[i];
      if KeyOf(w[n]) == k then Some(w[n]) else Latest(w[..n], k)
  }

  function LatestOf(w: seq<Event>, ks: seq<Key>): (es: seq<Event>)
    requires forall i :: 0 <= i < |ks| ==> Latest(w, ks[i]).Some?
    ensures |es| == |ks| && forall i :: 0 <= i < |ks| ==> es[i] == Latest(w, ks[i]).value
  {
    seq(|ks|, i requires 0 <= i < |ks| => Latest(w, ks[i]).value)
  }

  lemma KeysHaveEvents(w: seq<Event>)
    ensures forall i :: 0 <= i < |Keys(w)| ==> Latest(w, Keys(w)[i]).Some?
  {
    forall i | 0 <= i < |Keys(w)| ensures Latest(w, Keys(w)[i]).Some? {
      assert Keys(w)[i] in Keys(w);
    }
  }

  /** What a flush sends for a window. */
  function Coalesced(w: seq<Event>): seq<Event> {
    KeysHaveEvents(w);
    LatestOf(w, Keys(w))
  }

  // ---- when the client still sees the same ----

  /** The last event about a device. */
  function Final(w: seq<Event>, id: Id): (e: Option<Event>)
    ensures e.Some? ==> e.value.device.id == id
  {
    if w == [] then None
    else if w[|w| - 1].device.id == id then Some(w[|w| - 1])
    else Final(w[..|w| - 1], id)
  }

  /** The key of a device that is the last to show up. */
  function NewestKey(ks: seq<Key>, id: Id): (k: Option<Key>)
    ensures k.Some? ==> k.value in ks && k.value.id == id
    ensures k.None? <==> forall i :: 0 <= i < |ks| ==> ks[i].id != id
  {
    if ks == [] then None
    else
      var n := |ks| - 1;
      assert forall i :: 0 <= i < n ==> ks[..n][i] == ks[i];
      if ks[n].id == id then Some(ks[n]) else NewestKey(ks[..n], id)
  }

  function At(v: View, id: Id): Option<Device> {
    if id in v then Some(v[id]) else None
  }

  /** Only the last event about a device counts. */
  lemma {:induction false} ReplayAt(v: View, w: seq<Event>, id: Id)
    ensures At(Replay(v, w), id) == match Final(w, id) case None => At(v, id) case Some(e) => Effect(e)
  {
    if w != [] {
      ReplayAt(v, w[..|w| - 1], id);
    }
  }

  /** The event that coalescing lets have the last word about a device. */
  function LastWord(w: seq<Event>, id: Id): Option<Event> {
    var k := NewestKey(Keys(w), id);
    if k.None? then None else Latest(w, k.value)
  }

  lemma {:induction false} FinalOfLatest(w: seq<Event>, ks: seq<Key>, id: Id)
    requires forall i :: 0 <= i < |ks| ==> Latest(w, ks[i]).Some?
    ensures Final(LatestOf(w, ks), id) == match NewestKey(ks, id) case None => None case Some(k) => Latest(w, k)
  {
    if ks != [] {
      var n := |ks| - 1;
      FinalOfLatest(w, ks[..n], id);
      assert LatestOf(w, ks)[..n] == LatestOf(w, ks[..n]);
    }
  }

  lemma {:induction false} FinalIff(w: seq<Event>, id: Id)
    ensures Final(w, id).Some? <==> exists i :: 0 <= i < |w| && w[i].device.id == id
  {
    if w != [] {
      FinalIff(w[..|w| - 1], id);
      assert forall i :: 0 <= i < |w| - 1 ==> w[..|w| - 1][i] == w[i];
    }
  }

  lemma LastWordIff(w: seq<Event>, id: Id)
    ensures LastWord(w, id).Some? <==> Final(w, id).Some?
  {
    FinalIff(w, id);
    var ks := Keys(w);
    if NewestKey(ks, id).Some? {
      assert Latest(w, NewestKey(ks, id).value).Some?;
    }
    if Final(w, id).Some? {
      var i :| 0 <= i < |w| && w[i].device.id == id;
      assert KeyOf(w[i]) in ks;
    }
  }

  function EffectOf(e: Option<Event>): Option<Device> {
    if e.Some? then Effect(e.value) else None
  }

  /** The last event about each device, and the last event of the type the device showed up with last,
      leave the device in the same state. */
  ghost predicate SameEffect(w: seq<Event>) {
    forall id :: EffectOf(LastWord(w, id)) == EffectOf(Final(w, id))
  }

  /** Coalescing a window leaves a client with the view it would have had, exactly if the device's last
      event has the effect of the event that goes out last. */
  lemma CoalescingKeepsViewIff(v: View, w: seq<Event>)
    ensures Replay(v, Coalesced(w)) == Replay(v, w) <==> SameEffect(w)
  {
    var a, b := Replay(v, Coalesced(w)), Replay(v, w);
    KeysHaveEvents(w);
    forall id
      ensures At(a, id) == At(b, id) <==> EffectOf(LastWord(w, id)) == EffectOf(Final(w, id))
    {
      ReplayAt(v, w, id);
      ReplayAt(v, Coalesced(w), id);
      FinalOfLatest(w, Keys(w), id);
      LastWordIff(w, id);
    }
    if SameEffect(w) {
      forall id ensures (id in a <==> id in b) && (id in a ==> a[id] == b[id]) {
        assert EffectOf(LastWord(w, id)) == EffectOf(Final(w, id));
        assert At(a, id) == At(b, id);
      }
    }
  }

  /** Each device's events of one type stand together, other devices' events aside. */
  ghost predicate OneBlockEach(w: seq<Event>) {
    forall i, j, k :: 0 <= i < j < k < |w| && w[i].device.id == w[j].device.id == w[k].device.id && w[i].kind == w[k].kind ==>
      w[j].kind == w[i].kind
  }

  lemma BlocksOfPrefix(w: seq<Event>)
    requires OneBlockEach(w) && w != []
    ensures OneBlockEach(w[..|w| - 1])
  {
    assert forall i :: 0 <= i < |w| - 1 ==> w[..|w| - 1][i] == w[i];
  }

  /** A type that a device has shown before is the one it showed last. */
  lemma SameTypeAsBefore(w: seq<Event>, e: Event)
    requires OneBlockEach(w + [e]) && KeyOf(e) in Keys(w)
    ensures Final(w, e.device.id).Some? && KeyOf(Final(w, e.device.id).value) == KeyOf(e)
  {
    var id := e.device.id;
    var i :| 0 <= i < |w| && KeyOf(w[i]) == KeyOf(e);
    FinalIff(w, id);
    FinalIsLast(w, id);
    var j :| 0 <= j < |w| && Final(w, id) == Some(w[j]) && forall k :: j < k < |w| ==> w[k].device.id != id;
    var all := w + [e];
    assert all[i] == w[i] && all[j] == w[j] && all[|w|] == e;
    assert i < j ==> all[j].kind == all[i].kind;
  }

  lemma {:induction false} NewestIsFinal(w: seq<Event>, id: Id)
    requires OneBlockEach(w) && Final(w, id).Some?
    ensures NewestKey(Keys(w), id) == Some(KeyOf(Final(w, id).value))
  {
    var n := |w| - 1;
    var front, e := w[..n], w[n];
    assert w == front + [e];
    BlocksOfPrefix(w);
    if e.device.id != id {
      NewestIsFinal(front, id);
      NewestMore(Keys(front), KeyOf(e), id);
    } else if KeyOf(e) in Keys(front) {
      SameTypeAsBefore(front, e);
      NewestIsFinal(front, id);
    } else {
      NewestMore(Keys(front), KeyOf(e), id);
    }
  }

  lemma NewestMore(ks: seq<Key>, k: Key, id: Id)
    ensures NewestKey(ks + [k], id) == if k.id == id then Some(k) else NewestKey(ks, id)
  {
    assert (ks + [k])[..|ks|] == ks;
  }

  lemma {:induction false} FinalIsLast(w: seq<Event>, id: Id)
    requires Final(w, id).Some?
    ensures exists j :: 0 <= j < |w| && Final(w, id) == Some(w[j]) && forall k :: j < k < |w| ==> w[k].device.id != id
  {
    var n := |w| - 1;
    if w[n].device.id == id {
      assert Final(w, id) == Some(w[n]);
    } else {
      FinalIsLast(w[..n], id);
      var j :| 0 <= j < n && Final(w[..n], id) == Some(w[..n][j]) && forall k :: j < k < n ==> w[..n][k].device.id != id;
      assert Final(w, id) == Some(w[j]);
      forall k | j < k < |w| ensures w[k].device.id != id {
        assert k < n ==> w[..n][k] == w[k];
      }
    }
  }

  lemma {:induction false} FinalIsLatest(w: seq<Event>, id: Id)
    requires Final(w, id).Some?
    ensures Latest(w, KeyOf(Final(w, id).value)) == Final(w, id)
  {
    var n := |w| - 1;
    if w[n].device.id != id {
      FinalIsLatest(w[..n], id);
    }
  }

  /** If a device does not go back to a type within a window, nothing is lost. */
  lemma BlocksKeepView(v: View, w: seq<Event>)
    requires OneBlockEach(w)
    ensures Replay(v, Coalesced(w)) == Replay(v, w)
  {
    forall id ensures EffectOf(LastWord(w, id)) == EffectOf(Final(w, id)) {
      LastWordIff(w, id);
      if Final(w, id).Some? {
        NewestIsFinal(w, id);
        FinalIsLatest(w, id);
      }
    }
    CoalescingKeepsViewIff(v, w);
  }

  /** A device that comes, goes and comes back between two flushes is lost to the client. */
  lemma ComingBackIsLost(d: Device, again: Device)
    requires again.id == d.id
    ensures var w := [Event(BecameOnline, d), Event(WentOffline, d), Event(BecameOnline, again)];
            && d.id in Replay(map[], w)
            && d.id !in Replay(map[], Coalesced(w))
  {
    var on, off, back := Event(BecameOnline, d), Event(WentOffline, d), Event(BecameOnline, again);
    var w := [on, off, back];
    assert w[..2] == [on, off] && [on, off][..1] == [on] && [on][..0] == [];
    assert Keys([on]) == [KeyOf(on)];
    assert Keys([on, off]) == [KeyOf(on), KeyOf(off)];
    assert Keys(w) == [KeyOf(on), KeyOf(off)];
    assert Latest(w, KeyOf(on)) == Some(back);
    assert Latest([on, off], KeyOf(off)) == Some(off);
    assert Coalesced(w) == [back, off];
    ReplayAt(map[], w, d.id);
    ReplayAt(map[], Coalesced(w), d.id);
  }

  // ---- from the network to the client ----

  function Flatten(windows: seq<seq<Event>>): seq<Event> {
    if windows == [] then [] else Flatten(windows[..|windows| - 1]) + windows[|windows| - 1]
  }

  /** The windows as they are sent. */
  function Sent(windows: seq<seq<Event>>): seq<Event> {
    if windows == [] then [] else Sent(windows[..|windows| - 1]) + Coalesced(windows[|windows| - 1])
  }

  lemma {:induction false} ReplayAppend(v: View, a: seq<Event>, b: seq<Event>)
    ensures Replay(v, a + b) == Replay(Replay(v, a), b)
  {
    if b == [] {
      assert a + b == a;
    } else {
      var n := |b| - 1;
      ReplayAppend(v, a, b[..n]);
      assert (a + b)[..|a + b| - 1] == a + b[..n];
    }
  }

  lemma {:induction false} WindowsKeepView(v: View, windows: seq<seq<Event>>)
    requires forall i :: 0 <= i < |windows| ==> SameEffect(windows[i])
    ensures Replay(v, Sent(windows)) == Replay(v, Flatten(windows))
  {
    if windows != [] {
      var n := |windows| - 1;
      WindowsKeepView(v, windows[..n]);
      ReplayAppend(v, Sent(windows[..n]), Coalesced(windows[n]));
      ReplayAppend(v, Flatten(windows[..n]), windows[n]);
      CoalescingKeepsViewIff(Replay(v, Flatten(windows[..n])), windows[n]);
    }
  }

  /** A client that has received everything emitted so far, however it was cut into windows, shows the
      device map, as long as no window loses an effect. */
  lemma ClientShowsMap(self: Id, run: seq<State>, steps: seq<Step>, n: nat, windows: seq<seq<Event>>)
    requires IsRun(self, run, steps) && n < |run|
    requires Flatten(windows) == run[n].log && forall i :: 0 <= i < |windows| ==> SameEffect(windows[i])
    ensures Replay(map[], Sent(windows)) == Seen(run[n].devices)
  {
    LogTellsMap(self, run, steps, n);
    WindowsKeepView(map[], windows);
  }
}
