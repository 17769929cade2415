/** The streams the peer opens: every META on an unused ID makes one, and Accept yields each of them once,
    in the order of the METAs. */
module MuxInbound {
  import opened Bytes
  import opened MuxState
  import opened MuxProtocol
  import opened MuxTheorems

  // ---- a META opens a stream ----

  ghost predicate NeverOpened(e: Endpoint, id: uint32) {
    forall o :: 0 <= o < |e.objs| && e.objs[o].outbound ==> e.objs[o].id != id
  }

  /** Position k holds a META on an ID that no earlier frame has. */
  ghost predicate FirstMeta(wire: seq<Frame>, k: nat) {
    k < |wire| && wire[k].ftype == FRAME_META && forall j :: 0 <= j < k ==> wire[j].sid != wire[k].sid
  }

  ghost predicate HasInbound(e: Endpoint, since: nat, id: uint32) {
    exists o :: 0 <= o < |e.objs| && !e.objs[o].outbound && e.objs[o].since == since && e.objs[o].id == id
  }

  ghost predicate MetasOpen(e: Endpoint, wire: seq<Frame>) {
    forall k: nat :: k < Cursor(e) && FirstMeta(wire, k) && NeverOpened(e, wire[k].sid) ==> HasInbound(e, k, wire[k].sid)
  }

  /** No step renames an object or moves its place on the wire. */
  ghost predicate ObjectsStay(e: Endpoint, e': Endpoint) {
    && |e.objs| <= |e'.objs|
    && forall o :: 0 <= o < |e.objs| ==>
         e'.objs[o].id == e.objs[o].id && e'.objs[o].since == e.objs[o].since && e'.objs[o].outbound == e.objs[o].outbound
  }

  lemma InboundStays(e: Endpoint, e': Endpoint, since: nat, id: uint32)
    requires ObjectsStay(e, e') && HasInbound(e, since, id)
    ensures HasInbound(e', since, id)
  {
    var o :| 0 <= o < |e.objs| && !e.objs[o].outbound && e.objs[o].since == since && e.objs[o].id == id;
    assert e'.objs[o].since == since;
  }

  /** An ID is in the table because this end opened it or because a frame with it came before. */
  lemma TableHasReason(e: Endpoint, wire: seq<Frame>, id: uint32)
    requires Local(e, wire)
    ensures id in e.streams ==> !NeverOpened(e, id) || exists j :: 0 <= j < Cursor(e) && wire[j].sid == id
  {
    if id in e.streams {
      assert StreamOk(e, wire, e.streams[id]);
    }
  }

  /** The frame that is looked up: if it is a first META and the ID was never opened here, it is in no table. */
  lemma LookupOpens(e: Endpoint, wire: seq<Frame>)
    requires Local(e, wire) && e.reader.Holding?
    requires FirstMeta(wire, Cursor(e)) && NeverOpened(e, e.reader.f.sid)
    ensures HasInbound(LookupSection(e), Cursor(e), wire[Cursor(e)].sid)
  {
    TableHasReason(e, wire, e.reader.f.sid);
    assert LookupSection(e).objs[|e.objs|] == NewStream(e.reader.f.sid, false, Cursor(e));
  }

  lemma CursorMoves(e: Endpoint, wire: seq<Frame>, step: Step)
    requires Local(e, wire) && Enabled(e, wire, step)
    ensures Cursor(After(e, wire, step)) == if step.Lookup? then Cursor(e) + 1 else Cursor(e)
  {
  }

  lemma MetasKept(e: Endpoint, wire: seq<Frame>, step: Step)
    requires Local(e, wire) && Enabled(e, wire, step) && MetasOpen(e, wire)
    ensures MetasOpen(After(e, wire, step), wire)
  {
    var e' := After(e, wire, step);
    StepEffect(e, wire, step);
    CursorMoves(e, wire, step);
    forall k: nat | k < Cursor(e') && FirstMeta(wire, k) && NeverOpened(e', wire[k].sid) ensures HasInbound(e', k, wire[k].sid) {
      UnopenedBefore(e, e', wire[k].sid);
      if k < Cursor(e) {
        InboundStays(e, e', k, wire[k].sid);
      } else {
        LookupOpens(e, wire);
      }
    }
  }

  lemma UnopenedBefore(e: Endpoint, e': Endpoint, id: uint32)
    requires ObjectsStay(e, e') && NeverOpened(e', id)
    ensures NeverOpened(e, id)
  {
    forall o | 0 <= o < |e.objs| && e.objs[o].outbound ensures e.objs[o].id != id {
      assert e'.objs[o].outbound;
    }
  }

  // ---- Accept yields it ----

  /** What Accept has returned or has waiting, and the stream the read loop is offering. */
  function Offered(e: Endpoint): seq<nat> {
    e.taken + e.accept + if e.reader.Accepting? then [e.reader.o] else []
  }

  /** Two streams from the peer, in the order of their METAs. */
  ghost predicate Before(e: Endpoint, o: nat, o': nat) {
    o < o' < |e.objs| && e.objs[o].since < e.objs[o'].since
  }

  ghost predicate InOrder(e: Endpoint, os: seq<nat>) {
    && (forall i :: 0 <= i < |os| ==> os[i] < |e.objs| && !e.objs[os[i]].outbound)
    && (forall i, j :: 0 <= i < j < |os| ==> Before(e, os[i], os[j]))
  }

  /** A stream from the peer that Accept never sees was given up when the mux had closed. */
  ghost predicate Accepted(e: Endpoint) {
    && InOrder(e, Offered(e))
    && forall o: nat :: o < |e.objs| && !e.objs[o].outbound ==> o in Offered(e) || (e.closed && e.objs[o].closed)
  }

  lemma OrderStays(e: Endpoint, e': Endpoint, os: seq<nat>)
    requires ObjectsStay(e, e') && InOrder(e, os)
    ensures InOrder(e', os)
  {
    forall i, j | 0 <= i < j < |os| ensures Before(e', os[i], os[j]) {
      assert Before(e, os[i], os[j]);
    }
  }

  lemma OrderedMore(e: Endpoint, os: seq<nat>, o: nat)
    requires InOrder(e, os) && o < |e.objs| && !e.objs[o].outbound
    requires forall i :: 0 <= i < |os| ==> Before(e, os[i], o)
    ensures InOrder(e, os + [o])
  {
  }

  /** What is offered changes only when the read loop makes a stream or gives one up. */
  lemma OfferedMoves(e: Endpoint, wire: seq<Frame>, step: Step)
    requires Local(e, wire) && Enabled(e, wire, step)
    ensures var e' := After(e, wire, step);
            Offered(e') == if step.Lookup? && e'.reader.Accepting? then Offered(e) + [|e.objs|]
                           else if step.AcceptAbort? then e.taken + e.accept
                           else Offered(e)
  {
    var e' := After(e, wire, step);
    match step
    case Lookup => assert Offered(e) == e.taken + e.accept;
    case AcceptTake => assert e.taken + e.accept == e'.taken + e'.accept;
    case AcceptPush => assert Offered(e') == e.taken + (e.accept + [e.reader.o]);
    case _ => assert e'.taken == e.taken && e'.accept == e.accept;
  }

  lemma AbortGivesUp(e: Endpoint, wire: seq<Frame>)
    requires Local(e, wire) && Enabled(e, wire, AcceptAbort) && Accepted(e)
    ensures Accepted(After(e, wire, AcceptAbort))
  {
    var e' := After(e, wire, AcceptAbort);
    var kept := e.taken + e.accept;
    OfferedMoves(e, wire, AcceptAbort);
    OrderStays(e, e', Offered(e));
    OrderedFront(e', kept, e.reader.o);
    forall o: nat | o < |e'.objs| && !e'.objs[o].outbound ensures o in kept || (e'.closed && e'.objs[o].closed) {
      assert o in kept + [e.reader.o] ==> o in kept || o == e.reader.o;
    }
  }

  lemma OrderedFront(e: Endpoint, os: seq<nat>, o: nat)
    requires InOrder(e, os + [o])
    ensures InOrder(e, os)
  {
    forall i | 0 <= i < |os| ensures os[i] == (os + [o])[i] {
    }
  }

  lemma LookupOffers(e: Endpoint, wire: seq<Frame>)
    requires Local(e, wire) && e.reader.Holding? && LookupSection(e).reader.Accepting? && Accepted(e)
    ensures InOrder(LookupSection(e), Offered(e) + [|e.objs|])
  {
    var e', os := LookupSection(e), Offered(e);
    assert e'.objs == e.objs + [NewStream(e.reader.f.sid, false, Cursor(e))];
    OrderStays(e, e', os);
    forall i | 0 <= i < |os| ensures Before(e', os[i], |e.objs|) {
      assert StreamOk(e, wire, os[i]);
    }
    OrderedMore(e', os, |e.objs|);
  }

  /** No object comes from the peer except by a lookup, none is reopened, and the mux stays closed. */
  lemma OnlyLookupMakes(e: Endpoint, wire: seq<Frame>, step: Step)
    requires Local(e, wire) && Enabled(e, wire, step)
    ensures var e' := After(e, wire, step);
            && ObjectsStay(e, e') && (e.closed ==> e'.closed)
            && (forall o :: 0 <= o < |e.objs| && e.objs[o].closed ==> e'.objs[o].closed)
            && (forall o: nat :: |e.objs| <= o < |e'.objs| ==> o == |e.objs| && (e'.objs[o].outbound || (step.Lookup? && e'.reader.Accepting?)))
  {
    StepEffect(e, wire, step);
  }

  lemma AcceptedKept(e: Endpoint, wire: seq<Frame>, step: Step)
    requires Local(e, wire) && Enabled(e, wire, step) && Accepted(e)
    ensures Accepted(After(e, wire, step))
  {
    if step.AcceptAbort? {
      AbortGivesUp(e, wire);
    } else {
      var e' := After(e, wire, step);
      OnlyLookupMakes(e, wire, step);
      OfferedMoves(e, wire, step);
      OrderStays(e, e', Offered(e));
      if step.Lookup? && e'.reader.Accepting? { LookupOffers(e, wire); }
      forall o: nat | o < |e'.objs| && !e'.objs[o].outbound ensures o in Offered(e') || (e'.closed && e'.objs[o].closed) {
        assert o < |e.objs| ==> o in Offered(e) || (e.closed && e.objs[o].closed);
      }
    }
  }

  // ---- in every run ----

  /** What this end opened has its own parity, and no buffer holds more than its size. */
  ghost predicate InBounds(e: Endpoint, parity: nat) {
    && (forall o :: 0 <= o < |e.objs| && e.objs[o].outbound ==> e.objs[o].id % 2 == parity)
    && (forall o :: 0 <= o < |e.objs| ==> |e.objs[o].rcv| <= 128)
    && |e.accept| <= 16
  }

  lemma BoundsKept(e: Endpoint, wire: seq<Frame>, step: Step, parity: nat)
    requires Local(e, wire) && Enabled(e, wire, step) && InBounds(e, parity) && e.nextID % 2 == parity
    ensures InBounds(After(e, wire, step), parity)
  {
    StepEffect(e, wire, step);
  }

  ghost predicate InboundOk(s: Sys, side: Side) {
    var e := Own(s, side);
    MetasOpen(e, Peer(s, side).sent) && Accepted(e) && InBounds(e, Parity(side))
  }

  lemma OwnStep(s: Sys, s': Sys, side: Side, step: Step)
    requires Inv(s) && Next(s, s', side, step) && InboundOk(s, side)
    ensures InboundOk(s', side)
  {
    assert SideOk(s, side);
    var e, wire := Own(s, side), Peer(s, side).sent;
    MetasKept(e, wire, step);
    AcceptedKept(e, wire, step);
    BoundsKept(e, wire, step, Parity(side));
  }

  /** The other end's step makes the wire longer. */
  lemma OtherStep(s: Sys, s': Sys, side: Side, step: Step)
    requires Inv(s) && Next(s, s', if side == A then B else A, step) && InboundOk(s, side)
    ensures InboundOk(s', side)
  {
    var other := if side == A then B else A;
    assert SideOk(s, side) && SideOk(s, other);
    var e, wire, wire' := Own(s, side), Peer(s, side).sent, Peer(s', side).sent;
    StepEffect(Own(s, other), Peer(s, other).sent, step);
    assert wire <= wire';
    forall k: nat | k < Cursor(e) && FirstMeta(wire', k) && NeverOpened(e, wire'[k].sid) ensures HasInbound(e, k, wire'[k].sid) {
      assert FirstMeta(wire, k);
    }
  }

  lemma NewInboundOk(s: Sys, side: Side)
    requires s.a == NewEndpoint(false) && s.b == NewEndpoint(true)
    ensures InboundOk(s, side)
  {
    assert Offered(Own(s, side)) == [];
  }

  lemma {:induction false} InboundReachable(run: seq<Sys>, sides: seq<Side>, steps: seq<Step>, i: nat, side: Side)
    requires IsRun(run, sides, steps) && i < |run|
    requires run[i].a.opens < ID_LIMIT && run[i].b.opens < ID_LIMIT
    ensures Inv(run[i]) && InboundOk(run[i], side)
  {
    Reachable(run, sides, steps, i);
    if i == 0 {
      NewInboundOk(run[0], side);
    } else {
      assert NextAt(run, sides, steps, i - 1);
      OpensGrow(run[i - 1], run[i], sides[i - 1], steps[i - 1]);
      InboundReachable(run, sides, steps, i - 1, side);
      if sides[i - 1] == side {
        OwnStep(run[i - 1], run[i], side, steps[i - 1]);
      } else {
        OtherStep(run[i - 1], run[i], side, steps[i - 1]);
      }
    }
  }

  /** Wherever the read loop has passed a META on an ID that nobody had used on the wire and that this end did not
      open, a stream with that ID stands, registered at that very frame. The last clause is what the peer can
      see to: an ID of its own parity is never one this end opened. */
  lemma MetaOpensStream(run: seq<Sys>, sides: seq<Side>, steps: seq<Step>, i: nat, side: Side, k: nat)
    requires IsRun(run, sides, steps) && i < |run|
    requires run[i].a.opens < ID_LIMIT && run[i].b.opens < ID_LIMIT
    requires k < Cursor(Own(run[i], side)) && FirstMeta(Peer(run[i], side).sent, k)
    ensures var e, f := Own(run[i], side), Peer(run[i], side).sent[k];
            && (NeverOpened(e, f.sid) ==> HasInbound(e, k, f.sid))
            && (f.sid % 2 != Parity(side) ==> NeverOpened(e, f.sid))
  {
    InboundReachable(run, sides, steps, i, side);
  }

  /** Accept returns the peer's streams one by one in the order in which their METAs were written, none twice; a
      stream that is neither returned, waiting nor being offered was closed because the mux had shut down. */
  lemma AcceptYieldsEach(run: seq<Sys>, sides: seq<Side>, steps: seq<Step>, i: nat, side: Side)
    requires IsRun(run, sides, steps) && i < |run|
    requires run[i].a.opens < ID_LIMIT && run[i].b.opens < ID_LIMIT
    ensures var e := Own(run[i], side);
            && (forall m, n :: 0 <= m < n < |Offered(e)| ==> Before(e, Offered(e)[m], Offered(e)[n]))
            && (forall o: nat :: o in Offered(e) ==> o < |e.objs| && !e.objs[o].outbound)
            && (forall o: nat :: o < |e.objs| && !e.objs[o].outbound && !e.closed ==> o in Offered(e))
  {
    InboundReachable(run, sides, steps, i, side);
  }

  /** No more than 128 frames wait in a stream, and no more than 16 streams wait for Accept. */
  lemma BuffersAreBounded(run: seq<Sys>, sides: seq<Side>, steps: seq<Step>, i: nat, side: Side)
    requires IsRun(run, sides, steps) && i < |run|
    requires run[i].a.opens < ID_LIMIT && run[i].b.opens < ID_LIMIT
    ensures var e := Own(run[i], side); |e.accept| <= 16 && forall o :: 0 <= o < |e.objs| ==> |e.objs[o].rcv| <= 128
  {
    InboundReachable(run, sides, steps, i, side);
  }
}
