/** Stream IDs never collide, and every stream sees its own frames in order, over every run. */
module MuxTheorems {
  import opened Bytes
  import opened MuxState
  import opened MuxProtocol
  import opened FrameCodec

  const ID_LIMIT := 0x8000_0000  // Opens per end before nextID wraps

  function Parity(side: Side): nat {
    if side == A then 0 else 1
  }

  /** id has already been handed out by the end that owns its parity; the ends stand at na and nb. */
  ghost predicate Issued(na: nat, nb: nat, id: uint32) {
    id < (if id % 2 == 0 then na else nb)
  }

  ghost predicate WireIssued(fs: seq<Frame>, na: nat, nb: nat) {
    forall i :: 0 <= i < |fs| ==> Issued(na, nb, fs[i].sid)
  }

  /** Every ID an endpoint mentions anywhere: its objects, its wire, its senders' frames. */
  ghost predicate AllIssued(e: Endpoint, na: nat, nb: nat) {
    && (forall o :: 0 <= o < |e.objs| ==> Issued(na, nb, e.objs[o].id))
    && WireIssued(e.sent, na, nb)
    && (forall f :: f in e.outbox ==> Issued(na, nb, f.sid))
  }

  ghost predicate Counting(e: Endpoint, parity: nat) {
    e.nextID == parity + 2 * e.opens
  }

  /** Before an outbound stream was opened, the peer had written nothing with its ID. */
  ghost predicate FreshIDs(e: Endpoint, peerSent: seq<Frame>) {
    forall o :: 0 <= o < |e.objs| && e.objs[o].outbound ==>
      e.objs[o].since <= |peerSent| && OfId(peerSent[..e.objs[o].since], e.objs[o].id) == []
  }

  /** Every frame on a wire can be encoded. */
  ghost predicate Encodable(e: Endpoint) {
    forall i :: 0 <= i < |e.sent| ==> |e.sent[i].payload| <= MAX_PAYLOAD
  }

  ghost predicate EndOk(e: Endpoint, peerSent: seq<Frame>, parity: nat, na: nat, nb: nat) {
    && Local(e, peerSent)
    && AllIssued(e, na, nb)
    && Counting(e, parity)
    && FreshIDs(e, peerSent)
    && Encodable(e)
  }

  ghost predicate SideOk(s: Sys, side: Side) {
    if side == A then EndOk(s.a, s.b.sent, 0, s.a.nextID, s.b.nextID)
    else EndOk(s.b, s.a.sent, 1, s.a.nextID, s.b.nextID)
  }

  ghost predicate Inv(s: Sys) {
    SideOk(s, A) && SideOk(s, B)
  }

  /** What a step can do to the IDs in play. */
  ghost predicate Effect(e: Endpoint, peerSent: seq<Frame>, e': Endpoint) {
    && (e'.sent == e.sent || exists f :: f in e.outbox && |f.payload| <= MAX_PAYLOAD && e'.sent == e.sent + [f])
    && (forall f :: f in e'.outbox ==> f in e.outbox || exists o :: 0 <= o < |e.objs| && e.objs[o].id == f.sid)
    && |e.objs| <= |e'.objs| <= |e.objs| + 1
    && (forall o :: 0 <= o < |e.objs| ==>
         e'.objs[o].id == e.objs[o].id && e'.objs[o].since == e.objs[o].since && e'.objs[o].outbound == e.objs[o].outbound)
    && e.opens <= e'.opens <= e.opens + 1
    && e'.nextID == (if e'.opens == e.opens then e.nextID else (e.nextID + 2) % 0x1_0000_0000)
    && (|e'.objs| == |e.objs| + 1 ==>
         var st := e'.objs[|e.objs|];
         if st.outbound then st.id == e.nextID && e'.opens == e.opens + 1 && st.since == Cursor(e)
         else exists i :: 0 <= i < |peerSent| && peerSent[i].sid == st.id)
  }

  lemma RegisterEffect(e: Endpoint, peerSent: seq<Frame>)
    requires Local(e, peerSent)
    ensures Effect(e, peerSent, OpenSection(e))
    ensures e.reader.Holding? ==> Effect(e, peerSent, LookupSection(e))
  {
    if e.reader.Holding? {
      assert peerSent[e.read - 1] == e.reader.f;
    }
  }

  lemma StepEffect(e: Endpoint, peerSent: seq<Frame>, step: Step)
    requires Local(e, peerSent) && Enabled(e, peerSent, step)
    ensures Effect(e, peerSent, After(e, peerSent, step))
  {
    if step.Open? || step.Lookup? {
      RegisterEffect(e, peerSent);
    } else {
      var e' := After(e, peerSent, step);
      assert e'.nextID == e.nextID && e'.opens == e.opens && |e'.objs| == |e.objs|;
      assert e'.sent == if step.Write? then e.sent + [step.f] else e.sent;
    }
  }

  lemma CountingKept(e: Endpoint, peerSent: seq<Frame>, e': Endpoint, parity: nat)
    requires Effect(e, peerSent, e') && Counting(e, parity) && parity <= 1 && e'.opens < ID_LIMIT
    ensures Counting(e', parity) && e.nextID <= e'.nextID
    ensures e'.opens > e.opens ==> e'.nextID == e.nextID + 2
  {
  }

  lemma IssuedKept(e: Endpoint, peerSent: seq<Frame>, e': Endpoint, na: nat, nb: nat, na': nat, nb': nat)
    requires Effect(e, peerSent, e') && AllIssued(e, na, nb) && WireIssued(peerSent, na, nb)
    requires na <= na' && nb <= nb'
    requires e'.opens > e.opens ==> Issued(na', nb', e.nextID)
    ensures AllIssued(e', na', nb') && WireIssued(peerSent, na', nb')
  {
  }

  lemma FreshKept(e: Endpoint, peerSent: seq<Frame>, e': Endpoint)
    requires Effect(e, peerSent, e') && FreshIDs(e, peerSent) && 0 <= Cursor(e) <= |peerSent|
    requires forall i :: 0 <= i < |peerSent| ==> peerSent[i].sid != e.nextID
    ensures FreshIDs(e', peerSent)
  {
    forall o | 0 <= o < |e'.objs| && e'.objs[o].outbound
      ensures e'.objs[o].since <= |peerSent| && OfId(peerSent[..e'.objs[o].since], e'.objs[o].id) == []
    {
      if o == |e.objs| {
        OfIdNone(peerSent[..Cursor(e)], e.nextID);
      }
    }
  }

  /** The end that stands still: its peer's wire may grow, and more IDs may be out. */
  lemma EndWaits(e: Endpoint, peerSent: seq<Frame>, more: seq<Frame>, parity: nat, na: nat, nb: nat, na': nat, nb': nat)
    requires EndOk(e, peerSent, parity, na, nb) && na <= na' && nb <= nb'
    ensures EndOk(e, peerSent + more, parity, na', nb')
  {
    LocalGrows(e, peerSent, more);
    forall o | 0 <= o < |e.objs| && e.objs[o].outbound
      ensures OfId((peerSent + more)[..e.objs[o].since], e.objs[o].id) == []
    {
      assert (peerSent + more)[..e.objs[o].since] == peerSent[..e.objs[o].since];
    }
  }

  /** The next ID is not in use anywhere. */
  lemma NextIsFree(e: Endpoint, peer: Endpoint, parity: nat, na: nat, nb: nat)
    requires EndOk(e, peer.sent, parity, na, nb) && AllIssued(peer, na, nb)
    requires e.nextID == if parity == 0 then na else nb
    requires parity <= 1
    ensures e.nextID % 2 == parity
    ensures forall id: uint32 :: Issued(na, nb, id) ==> id != e.nextID
    ensures e.nextID !in e.streams
    ensures forall i :: 0 <= i < |peer.sent| ==> peer.sent[i].sid != e.nextID
  {
  }

  lemma EndMoves(e: Endpoint, peer: Endpoint, step: Step, parity: nat, na: nat, nb: nat, na': nat, nb': nat)
    requires EndOk(e, peer.sent, parity, na, nb) && AllIssued(peer, na, nb) && parity <= 1
    requires e.nextID == if parity == 0 then na else nb
    requires Enabled(e, peer.sent, step)
    requires var e' := After(e, peer.sent, step);
             && e'.opens < ID_LIMIT
             && (if parity == 0 then na' == e'.nextID && nb' == nb else na' == na && nb' == e'.nextID)
    ensures na <= na' && nb <= nb' && EndOk(After(e, peer.sent, step), peer.sent, parity, na', nb')
  {
    var e' := After(e, peer.sent, step);
    NextIsFree(e, peer, parity, na, nb);
    StepEffect(e, peer.sent, step);
    CountingKept(e, peer.sent, e', parity);
    LocalKeeps(e, peer.sent, step);
    IssuedKept(e, peer.sent, e', na, nb, na', nb');
    FreshKept(e, peer.sent, e');
  }

  lemma StepKeeps(s: Sys, s': Sys, side: Side, step: Step)
    requires Inv(s) && Next(s, s', side, step) && Own(s', side).opens < ID_LIMIT
    ensures Inv(s')
  {
    var e, e', peer := Own(s, side), Own(s', side), Peer(s, side);
    var other := if side == A then B else A;
    assert SideOk(s, side) && SideOk(s, other);
    EndMoves(e, peer, step, Parity(side), s.a.nextID, s.b.nextID, s'.a.nextID, s'.b.nextID);
    StepEffect(e, peer.sent, step);
    var more := e'.sent[|e.sent|..];
    assert e'.sent == e.sent + more;
    EndWaits(peer, e.sent, more, Parity(other), s.a.nextID, s.b.nextID, s'.a.nextID, s'.b.nextID);
    assert SideOk(s', side) && SideOk(s', other);
  }

  lemma NewEndOk(responder: bool)
    ensures EndOk(NewEndpoint(responder), [], if responder then 1 else 0, 0, 1)
  {
    var e := NewEndpoint(responder);
    NothingYet(e);
    assert AllIssued(e, 0, 1) && Counting(e, if responder then 1 else 0) && FreshIDs(e, []) && Encodable(e);
  }

  lemma NothingYet(e: Endpoint)
    requires e.objs == [] && e.streams == map[] && e.reader == Reading && e.read == 0
    ensures Local(e, [])
  {
  }

  lemma InitOk(s: Sys)
    requires s.a == NewEndpoint(false) && s.b == NewEndpoint(true)
    ensures Inv(s)
  {
    NewEndOk(false);
    NewEndOk(true);
  }

  lemma OpensGrow(s: Sys, s': Sys, side: Side, step: Step)
    requires Next(s, s', side, step)
    ensures s.a.opens <= s'.a.opens && s.b.opens <= s'.b.opens
  {
  }

  lemma {:induction false} Reachable(run: seq<Sys>, sides: seq<Side>, steps: seq<Step>, i: nat)
    requires IsRun(run, sides, steps) && i < |run|
    requires run[i].a.opens < ID_LIMIT && run[i].b.opens < ID_LIMIT
    ensures Inv(run[i])
  {
    if i == 0 {
      InitOk(run[0]);
    } else {
      assert NextAt(run, sides, steps, i - 1);
      OpensGrow(run[i - 1], run[i], sides[i - 1], steps[i - 1]);
      Reachable(run, sides, steps, i - 1);
      StepKeeps(run[i - 1], run[i], sides[i - 1], steps[i - 1]);
    }
  }

  // ---- the theorems ----

  /** A stream returns a prefix of what its peer wrote with its ID since the stream was registered:
      nothing mixed in, reordered, skipped or doubled. For a stream from Open that is everything the
      peer ever wrote with the ID; a stream from the peer starts with the META that opened it. */
  lemma DemultiplexInOrder(run: seq<Sys>, sides: seq<Side>, steps: seq<Step>, i: nat, side: Side, o: nat)
    requires IsRun(run, sides, steps) && i < |run|
    requires run[i].a.opens < ID_LIMIT && run[i].b.opens < ID_LIMIT
    requires o < |Own(run[i], side).objs|
    ensures var st, sent := Own(run[i], side).objs[o], Peer(run[i], side).sent;
            && st.since <= |sent|
            && st.returned <= OfId(sent[st.since..], st.id)
            && (st.outbound ==> st.returned <= OfId(sent, st.id))
            && (!st.outbound && st.returned != [] ==>
                 st.returned[0] == sent[st.since] && st.returned[0].ftype == FRAME_META)
  {
    Reachable(run, sides, steps, i);
    assert SideOk(run[i], side);
    ReturnedInOrder(Own(run[i], side), Peer(run[i], side).sent, o);
  }

  lemma ReturnedPrefix(e: Endpoint, sent: seq<Frame>, o: nat)
    requires Local(e, sent) && o < |e.objs|
    ensures e.objs[o].since <= |sent|
    ensures e.objs[o].returned <= OfId(sent[e.objs[o].since..], e.objs[o].id)
  {
    var st := e.objs[o];
    assert StreamOk(e, sent, o);
    var seen, unseen := sent[st.since..Cursor(e)], sent[Cursor(e)..];
    assert sent[st.since..] == seen + unseen;
    OfIdConcat(seen, unseen, st.id);
    assert st.returned <= Received(st) <= OfId(seen, st.id);
  }

  lemma ReturnedInOrder(e: Endpoint, sent: seq<Frame>, o: nat)
    requires Local(e, sent) && FreshIDs(e, sent) && o < |e.objs|
    ensures var st := e.objs[o];
            && st.since <= |sent|
            && st.returned <= OfId(sent[st.since..], st.id)
            && (st.outbound ==> st.returned <= OfId(sent, st.id))
            && (!st.outbound && st.returned != [] ==>
                 st.returned[0] == sent[st.since] && st.returned[0].ftype == FRAME_META)
  {
    var st := e.objs[o];
    ReturnedPrefix(e, sent, o);
    assert StreamOk(e, sent, o);
    if st.outbound {
      WholePrefix(sent, st.since, st.id, st.returned);
    } else if st.returned != [] {
      FirstIsFirst(sent, st.since, st.id, st.returned);
    }
  }

  lemma WholePrefix(sent: seq<Frame>, since: nat, id: uint32, got: seq<Frame>)
    requires since <= |sent| && got <= OfId(sent[since..], id) && OfId(sent[..since], id) == []
    ensures got <= OfId(sent, id)
  {
    assert sent == sent[..since] + sent[since..];
    OfIdConcat(sent[..since], sent[since..], id);
  }

  lemma FirstIsFirst(sent: seq<Frame>, since: nat, id: uint32, got: seq<Frame>)
    requires since < |sent| && sent[since].sid == id && got != [] && got <= OfId(sent[since..], id)
    ensures got[0] == sent[since]
  {
    var first := sent[since];
    assert sent[since..] == [first] + sent[since + 1..];
    OfIdConcat([first], sent[since + 1..], id);
    OfIdOne(first);
  }

  lemma OfIdOne(f: Frame)
    ensures OfId([f], f.sid) == [f]
  {
    assert [f][..0] == [];
  }

  /** While a stream is open nothing is lost either: what it returned, what it buffers and the frame
      in hand are exactly the frames of its ID that the read loop has looked up. */
  lemma OpenStreamsLoseNothing(run: seq<Sys>, sides: seq<Side>, steps: seq<Step>, i: nat, side: Side, o: nat)
    requires IsRun(run, sides, steps) && i < |run|
    requires run[i].a.opens < ID_LIMIT && run[i].b.opens < ID_LIMIT
    requires o < |Own(run[i], side).objs| && !Own(run[i], side).objs[o].closed
    ensures var e := Own(run[i], side);
            && e.objs[o].since <= Cursor(e) <= |Peer(run[i], side).sent|
            && Received(e.objs[o]) + InHand(e.reader, o)
               == OfId(Peer(run[i], side).sent[e.objs[o].since..Cursor(e)], e.objs[o].id)
  {
    Reachable(run, sides, steps, i);
    assert SideOk(run[i], side);
    assert StreamOk(Own(run[i], side), Peer(run[i], side).sent, o);
  }

  /** The wire as bytes is the wire as frames: whatever a mux has sent decodes to exactly that, and after k
      frames the reader stands before the k-th. */
  lemma WireDecodes(run: seq<Sys>, sides: seq<Side>, steps: seq<Step>, i: nat, side: Side, crc: Checksum, k: nat)
    requires IsRun(run, sides, steps) && i < |run|
    requires run[i].a.opens < ID_LIMIT && run[i].b.opens < ID_LIMIT
    requires k <= |Own(run[i], side).sent|
    ensures var sent := Own(run[i], side).sent;
            && (forall j :: 0 <= j < |sent| ==> |sent[j].payload| <= MAX_PAYLOAD)
            && DecodeMany(crc, EncodeAll(crc, sent), k) == Batch(sent[..k], EncodeAll(crc, sent[k..]))
  {
    Reachable(run, sides, steps, i);
    var e := Own(run[i], side);
    assert Encodable(e) by {
      assert SideOk(run[i], side);
    }
    var done, left := e.sent[..k], e.sent[k..];
    assert e.sent == done + left;
    EncodeAllAppend(crc, done, left);
    DecodeManyEncodings(crc, done, EncodeAll(crc, left));
  }

  /** Open never reuses an ID that any table, wire or sender of either end knows. */
  lemma OpenTakesFreshID(run: seq<Sys>, sides: seq<Side>, steps: seq<Step>, i: nat, side: Side)
    requires IsRun(run, sides, steps) && i < |run|
    requires run[i].a.opens < ID_LIMIT && run[i].b.opens < ID_LIMIT
    ensures var id := Own(run[i], side).nextID;
            && id % 2 == Parity(side)
            && id !in run[i].a.streams && id !in run[i].b.streams
            && (forall k :: 0 <= k < |run[i].a.sent| ==> run[i].a.sent[k].sid != id)
            && (forall k :: 0 <= k < |run[i].b.sent| ==> run[i].b.sent[k].sid != id)
            && (forall f :: f in run[i].a.outbox || f in run[i].b.outbox ==> f.sid != id)
  {
    Reachable(run, sides, steps, i);
    assert SideOk(run[i], A) && SideOk(run[i], B);
    NextIsFree(Own(run[i], side), Peer(run[i], side), Parity(side), run[i].a.nextID, run[i].b.nextID);
    var id := Own(run[i], side).nextID;
    assert forall f :: f in run[i].a.outbox || f in run[i].b.outbox ==>
      Issued(run[i].a.nextID, run[i].b.nextID, f.sid);
  }

  // ---- the bound on Opens is sharp ----

  /** n Opens in a row on a new endpoint. */
  ghost function OpenMany(responder: bool, n: nat): (e: Endpoint)
    ensures Cursor(e) == 0
  {
    if n == 0 then NewEndpoint(responder) else OpenSection(OpenMany(responder, n - 1))
  }

  /** What n Opens leave: the counter moved 2n on, and the first stream still in its place. */
  ghost predicate OpenedTimes(e: Endpoint, first: uint32, n: nat) {
    && e.nextID == (first + 2 * n) % 0x1_0000_0000
    && |e.objs| == n
    && (0 < 2 * n <= 0x1_0000_0000 ==> first in e.streams && e.streams[first] == 0)
  }

  lemma OpenOnce(e: Endpoint, first: uint32, n: nat)
    requires OpenedTimes(e, first, n) && Cursor(e) == 0
    ensures OpenedTimes(OpenSection(e), first, n + 1)
  {
  }

  lemma NewShape(responder: bool)
    ensures OpenedTimes(NewEndpoint(responder), if responder then 1 else 0, 0)
  {
  }

  lemma {:induction false} OpenManyShape(responder: bool, n: nat)
    ensures OpenedTimes(OpenMany(responder, n), if responder then 1 else 0, n)
  {
    if n == 0 {
      NewShape(responder);
    } else {
      OpenManyShape(responder, n - 1);
      OpenOnce(OpenMany(responder, n - 1), if responder then 1 else 0, n - 1);
    }
  }

  /** After 2^31 Opens the counter is back at its first ID, and the next Open puts a new object over
      the first stream, which is still in the table. */
  lemma WrapOverwritesLiveStream(responder: bool, n: nat)
    requires 2 * n == 0x1_0000_0000
    ensures var e, first := OpenMany(responder, n), if responder then 1 else 0;
            && e.nextID == first
            && first in e.streams && e.streams[first] == 0
            && OpenSection(e).streams[first] == n
  {
    OpenManyShape(responder, n);
  }
}
