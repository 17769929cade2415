/** Two endpoints joined by two FIFO wires, run in any interleaving. */
module MuxProtocol {
  import opened Bytes
  import opened MuxState

  /** The initiator and the responder; each end's incoming wire is the other end's `sent`. */
  datatype Sys = Sys(a: Endpoint, b: Endpoint)

  datatype Side = A | B

  function Own(s: Sys, side: Side): Endpoint {
    if side == A then s.a else s.b
  }

  function Peer(s: Sys, side: Side): Endpoint {
    if side == A then s.b else s.a
  }

  ghost predicate Next(s: Sys, s': Sys, side: Side, step: Step) {
    && Cursor(Own(s, side)) >= 0
    && Enabled(Own(s, side), Peer(s, side).sent, step)
    && Own(s', side) == After(Own(s, side), Peer(s, side).sent, step)
    && Peer(s', side) == Peer(s, side)
  }

  ghost predicate IsRun(run: seq<Sys>, sides: seq<Side>, steps: seq<Step>) {
    && |run| == |steps| + 1 == |sides| + 1
    && run[0] == Sys(NewEndpoint(false), NewEndpoint(true))
    && forall i :: 0 <= i < |steps| ==> NextAt(run, sides, steps, i)
  }

  ghost predicate NextAt(run: seq<Sys>, sides: seq<Side>, steps: seq<Step>, i: nat)
    requires i < |steps| && |run| == |steps| + 1 == |sides| + 1
  {
    Next(run[i], run[i + 1], sides[i], steps[i])
  }

  // ---- frames of one ID ----

  ghost function OfId(fs: seq<Frame>, id: uint32): seq<Frame> {
    if fs == [] then []
    else OfId(fs[..|fs| - 1], id) + if fs[|fs| - 1].sid == id then [fs[|fs| - 1]] else []
  }

  lemma OfIdMore(fs: seq<Frame>, from: nat, to: nat, id: uint32)
    requires from <= to < |fs|
    ensures OfId(fs[from..to + 1], id) == OfId(fs[from..to], id) + if fs[to].sid == id then [fs[to]] else []
  {
    assert fs[from..to + 1][..to - from] == fs[from..to];
  }

  lemma {:induction false} OfIdNone(fs: seq<Frame>, id: uint32)
    requires forall i :: 0 <= i < |fs| ==> fs[i].sid != id
    ensures OfId(fs, id) == []
  {
    if fs != [] {
      OfIdNone(fs[..|fs| - 1], id);
    }
  }

  lemma {:induction false} OfIdConcat(a: seq<Frame>, b: seq<Frame>, id: uint32)
    ensures OfId(a + b, id) == OfId(a, id) + OfId(b, id)
  {
    if b == [] {
      assert a + b == a;
    } else {
      assert (a + b)[..|a + b| - 1] == a + b[..|b| - 1];
      OfIdConcat(a, b[..|b| - 1], id);
    }
  }

  // ---- one endpoint against the wire it reads ----

  /** What has come in for object o since it was registered, as far as the read loop has looked. */
  ghost function Arrived(e: Endpoint, peerSent: seq<Frame>, st: Stream): seq<Frame>
    requires st.since <= Cursor(e) <= |peerSent|
  {
    OfId(peerSent[st.since..Cursor(e)], st.id)
  }

  function Received(st: Stream): seq<Frame> {
    st.returned + st.rcv
  }

  /** The frame the read loop is carrying to object o, if any. */
  function InHand(r: Reader, o: nat): seq<Frame> {
    if (r.Accepting? || r.Delivering? || r.Selecting?) && r.o == o then [r.f] else []
  }

  ghost predicate InTable(e: Endpoint, o: nat)
    requires o < |e.objs|
  {
    if e.objs[o].removed then e.objs[o].closed
    else e.objs[o].id in e.streams && e.streams[e.objs[o].id] == o
  }

  ghost predicate StreamOk(e: Endpoint, peerSent: seq<Frame>, o: nat)
    requires o < |e.objs| && Cursor(e) <= |peerSent|
  {
    var st := e.objs[o];
    && st.since <= Cursor(e)
    && Received(st) <= Arrived(e, peerSent, st)
    && (!st.closed ==> Received(st) + InHand(e.reader, o) == Arrived(e, peerSent, st))
    && (e.reader.Selecting? && e.reader.o == o ==> Received(st) + [e.reader.f] == Arrived(e, peerSent, st))
    && (!st.outbound ==> st.since < Cursor(e) && peerSent[st.since].sid == st.id
                         && peerSent[st.since].ftype == FRAME_META)
  }

  ghost predicate TableOk(e: Endpoint) {
    && (forall o :: 0 <= o < |e.objs| ==> InTable(e, o))
    && (forall id :: id in e.streams ==> e.streams[id] < |e.objs|)
    && (forall id :: id in e.streams ==> e.objs[e.streams[id]].id == id && !e.objs[e.streams[id]].removed)
  }

  ghost predicate ReaderOk(e: Endpoint, peerSent: seq<Frame>) {
    && 0 <= Cursor(e) && e.read <= |peerSent|
    && (!e.reader.Reading? ==> e.read > 0 && e.reader.f == peerSent[e.read - 1])
    && (e.reader.Accepting? || e.reader.Delivering? || e.reader.Selecting? ==>
         e.reader.o < |e.objs| && e.objs[e.reader.o].id == e.reader.f.sid)
  }

  ghost predicate Local(e: Endpoint, peerSent: seq<Frame>) {
    && TableOk(e)
    && ReaderOk(e, peerSent)
    && forall o :: 0 <= o < |e.objs| ==> StreamOk(e, peerSent, o)
  }

  /** Frames the peer writes later do not disturb what was received. */
  lemma LocalGrows(e: Endpoint, peerSent: seq<Frame>, more: seq<Frame>)
    requires Local(e, peerSent)
    ensures Local(e, peerSent + more)
  {
    forall o | 0 <= o < |e.objs| ensures StreamOk(e, peerSent + more, o) {
      assert StreamOk(e, peerSent, o);
      var st := e.objs[o];
      assert (peerSent + more)[st.since..Cursor(e)] == peerSent[st.since..Cursor(e)];
    }
  }

  /** With the frame in hand counted as arrived. */
  lemma ArrivedMore(e: Endpoint, peerSent: seq<Frame>, st: Stream)
    requires e.reader.Holding? && st.since < e.read <= |peerSent| && peerSent[e.read - 1] == e.reader.f
    ensures OfId(peerSent[st.since..e.read], st.id)
         == Arrived(e, peerSent, st) + if e.reader.f.sid == st.id then [e.reader.f] else []
  {
    OfIdMore(peerSent, st.since, e.read - 1, st.id);
  }

  lemma LookupKeepsOld(e: Endpoint, peerSent: seq<Frame>, o: nat)
    requires Local(e, peerSent) && e.reader.Holding? && o < |e.objs|
    ensures Cursor(LookupSection(e)) == e.read && LookupSection(e).objs[o] == e.objs[o]
    ensures StreamOk(LookupSection(e), peerSent, o)
  {
    var e', st := LookupSection(e), e.objs[o];
    assert InTable(e, o) && StreamOk(e, peerSent, o);
    ArrivedMore(e, peerSent, st);
  }

  lemma LookupKeepsNew(e: Endpoint, peerSent: seq<Frame>)
    requires Local(e, peerSent) && e.reader.Holding? && LookupSection(e).reader.Accepting?
    ensures StreamOk(LookupSection(e), peerSent, |e.objs|)
  {
    OfIdMore(peerSent, e.read - 1, e.read - 1, e.reader.f.sid);
    assert peerSent[e.read - 1..e.read - 1] == [];
  }

  lemma LookupKeeps(e: Endpoint, peerSent: seq<Frame>)
    requires Local(e, peerSent) && e.reader.Holding?
    ensures Local(LookupSection(e), peerSent)
  {
    var e' := LookupSection(e);
    forall o | 0 <= o < |e'.objs| ensures StreamOk(e', peerSent, o) {
      if o < |e.objs| {
        LookupKeepsOld(e, peerSent, o);
      } else {
        LookupKeepsNew(e, peerSent);
      }
    }
    LookupKeepsTable(e);
  }

  lemma LookupKeepsTable(e: Endpoint)
    requires TableOk(e) && e.reader.Holding? && Cursor(e) >= 0
    ensures TableOk(LookupSection(e))
  {
    var f := e.reader.f;
    if f.sid in e.streams || f.ftype != FRAME_META {
      SameTable(e, LookupSection(e));
    } else {
      RegisterKeepsTable(e, f.sid, false);
      SameTable(Register(e, f.sid, false), LookupSection(e));
    }
  }

  lemma SameTable(e: Endpoint, e': Endpoint)
    requires TableOk(e) && e'.streams == e.streams && e'.objs == e.objs
    ensures TableOk(e')
  {
    forall o | 0 <= o < |e'.objs| ensures InTable(e', o) {
      assert InTable(e, o);
    }
  }

  lemma RegisterKeepsTable(e: Endpoint, id: uint32, outbound: bool)
    requires TableOk(e) && id !in e.streams && Cursor(e) >= 0
    ensures TableOk(Register(e, id, outbound))
  {
    var e' := Register(e, id, outbound);
    forall o | 0 <= o < |e'.objs| ensures InTable(e', o) {
      assert o < |e.objs| ==> InTable(e, o);
    }
  }

  lemma OpenKeeps(e: Endpoint, peerSent: seq<Frame>)
    requires Local(e, peerSent) && e.nextID !in e.streams
    ensures Local(OpenSection(e), peerSent)
  {
    var e' := OpenSection(e);
    forall o | 0 <= o < |e'.objs| ensures StreamOk(e', peerSent, o) {
      if o < |e.objs| {
        assert StreamOk(e, peerSent, o);
      } else {
        assert peerSent[Cursor(e)..Cursor(e)] == [];
      }
    }
    RegisterKeepsTable(e, e.nextID, true);
    SameTable(Register(e, e.nextID, true), e');
  }

  lemma DecodeKeeps(e: Endpoint, peerSent: seq<Frame>)
    requires Local(e, peerSent) && Enabled(e, peerSent, Decode)
    ensures Local(After(e, peerSent, Decode), peerSent)
  {
    var e' := After(e, peerSent, Decode);
    assert Cursor(e') == Cursor(e);
    forall o | 0 <= o < |e'.objs| ensures StreamOk(e', peerSent, o) && InTable(e', o) {
      assert StreamOk(e, peerSent, o) && InTable(e, o);
    }
  }

  lemma ReceiveKeeps(e: Endpoint, peerSent: seq<Frame>, o: nat)
    requires Local(e, peerSent) && Enabled(e, peerSent, Receive(o))
    ensures Local(After(e, peerSent, Receive(o)), peerSent)
  {
    var e' := After(e, peerSent, Receive(o));
    forall k | 0 <= k < |e'.objs| ensures StreamOk(e', peerSent, k) && InTable(e', k) {
      assert StreamOk(e, peerSent, k) && InTable(e, k);
      assert Received(e'.objs[k]) == Received(e.objs[k]);
    }
  }

  lemma DeliverKeeps(e: Endpoint, peerSent: seq<Frame>)
    requires Local(e, peerSent) && Enabled(e, peerSent, Deliver)
    ensures Local(After(e, peerSent, Deliver), peerSent)
  {
    var e' := After(e, peerSent, Deliver);
    var o := e.reader.o;
    assert Received(e'.objs[o]) == Received(e.objs[o]) + [e.reader.f];
    forall k | 0 <= k < |e'.objs| ensures StreamOk(e', peerSent, k) && InTable(e', k) {
      assert StreamOk(e, peerSent, k) && InTable(e, k);
    }
  }

  lemma CloseKeeps(e: Endpoint, peerSent: seq<Frame>, o: nat)
    requires Local(e, peerSent) && o < |e.objs|
    ensures Local(WithObj(e, o, e.objs[o].(closed := true)), peerSent)
  {
    var e' := WithObj(e, o, e.objs[o].(closed := true));
    forall k | 0 <= k < |e'.objs| ensures StreamOk(e', peerSent, k) && InTable(e', k) {
      assert StreamOk(e, peerSent, k) && InTable(e, k);
    }
  }

  /** The read loop may move on with its frame, or give it up if the stream is closed. */
  lemma ReaderMoves(e: Endpoint, peerSent: seq<Frame>, r: Reader)
    requires Local(e, peerSent)
    requires e.reader.Accepting? || e.reader.Delivering? || e.reader.Selecting?
    requires match r
      case Reading => e.objs[e.reader.o].closed
      case Delivering(o, f) => o == e.reader.o && f == e.reader.f
      case Selecting(o, f) => o == e.reader.o && f == e.reader.f && !e.objs[o].closed
      case _ => false
    ensures Local(e.(reader := r), peerSent)
  {
    var e' := e.(reader := r);
    forall k | 0 <= k < |e'.objs| ensures StreamOk(e', peerSent, k) && InTable(e', k) {
      assert StreamOk(e, peerSent, k) && InTable(e, k);
    }
  }

  lemma LoopStepKeeps(e: Endpoint, peerSent: seq<Frame>, step: Step)
    requires Local(e, peerSent) && Enabled(e, peerSent, step)
    requires step.AcceptPush? || step.AcceptAbort? || step.CheckClosed? || step.Drop?
    ensures Local(After(e, peerSent, step), peerSent)
  {
    match step
    case AcceptPush =>
      ReaderMoves(e, peerSent, Delivering(e.reader.o, e.reader.f));
      QuietFields(e.(reader := Delivering(e.reader.o, e.reader.f)), After(e, peerSent, step), peerSent);
    case AcceptAbort =>
      CloseKeeps(e, peerSent, e.reader.o);
      ReaderMoves(WithObj(e, e.reader.o, e.objs[e.reader.o].(closed := true)), peerSent, Reading);
    case CheckClosed => ReaderMoves(e, peerSent, After(e, peerSent, step).reader);
    case Drop => ReaderMoves(e, peerSent, Reading);
  }

  /** Local says nothing about the remaining fields. */
  lemma QuietFields(e: Endpoint, e': Endpoint, peerSent: seq<Frame>)
    requires Local(e, peerSent)
    requires e'.streams == e.streams && e'.objs == e.objs && e'.reader == e.reader && e'.read == e.read
    ensures Local(e', peerSent)
  {
    forall k | 0 <= k < |e'.objs| ensures StreamOk(e', peerSent, k) && InTable(e', k) {
      assert StreamOk(e, peerSent, k) && InTable(e, k);
    }
  }

  lemma RemoveKeeps(e: Endpoint, peerSent: seq<Frame>, o: nat)
    requires Local(e, peerSent) && Enabled(e, peerSent, Remove(o))
    ensures Local(After(e, peerSent, Remove(o)), peerSent)
  {
    var e' := After(e, peerSent, Remove(o));
    forall k | 0 <= k < |e'.objs| ensures StreamOk(e', peerSent, k) && InTable(e', k) {
      assert StreamOk(e, peerSent, k) && InTable(e, k) && InTable(e, o);
    }
  }

  lemma LocalKeeps(e: Endpoint, peerSent: seq<Frame>, step: Step)
    requires Local(e, peerSent) && Enabled(e, peerSent, step)
    requires e.nextID !in e.streams
    ensures Local(After(e, peerSent, step), peerSent)
  {
    match step
    case Open => OpenKeeps(e, peerSent);
    case Decode => DecodeKeeps(e, peerSent);
    case Lookup => LookupKeeps(e, peerSent);
    case Deliver => DeliverKeeps(e, peerSent);
    case Receive(o) => ReceiveKeeps(e, peerSent, o);
    case CloseStream(o) => CloseKeeps(e, peerSent, o);
    case Remove(o) => RemoveKeeps(e, peerSent, o);
    case AcceptPush => LoopStepKeeps(e, peerSent, step);
    case AcceptAbort => LoopStepKeeps(e, peerSent, step);
    case CheckClosed => LoopStepKeeps(e, peerSent, step);
    case Drop => LoopStepKeeps(e, peerSent, step);
    case _ => QuietFields(e, After(e, peerSent, step), peerSent);
  }
}
