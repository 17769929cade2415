/** The Mux and its Stream objects: the code of stream.go on mutable fields, each piece proved to be
    the protocol step (or steps) it stands for. */
module Mux {
  import opened Bytes
  import M = MuxState
  import opened FrameCodec

  const FRAME_END: byte := 4
  const FRAME_CANCEL: byte := 5
  const FRAME_ERROR: byte := 6

  predicate EndsStream(ftype: byte) {
    ftype == FRAME_END || ftype == FRAME_CANCEL || ftype == FRAME_ERROR
  }

  datatype Delivery = Queued | Dropped | Blocked

  datatype SendResult = Sent | StreamClosed | MuxClosed | TooLarge

  class Stream {
    const id: uint32
    ghost const serial: nat    // position among all objects ever made
    ghost const since: nat
    ghost const outbound: bool
    var rcv: seq<M.Frame>
    var closed: bool
    ghost var returned: seq<M.Frame>
    ghost var removed: bool

    constructor (id: uint32, ghost serial: nat, ghost outbound: bool, ghost since: nat)
      ensures this.serial == serial && Abs() == M.NewStream(id, outbound, since)
    {
      this.id := id;
      this.serial := serial;
      this.outbound := outbound;
      this.since := since;
      rcv := [];
      closed := false;
      returned := [];
      removed := false;
    }

    ghost function Abs(): M.Stream
      reads this
    {
      M.Stream(id, outbound, since, rcv, returned, closed, removed)
    }
  }

  ghost function Objects(all: seq<Stream>): seq<M.Stream>
    reads all
  {
    seq(|all|, i requires 0 <= i < |all| reads all => all[i].Abs())
  }

  class Mux {
    var streams: map<uint32, Stream>
    var nextID: uint32
    var closed: bool
    ghost var opens: nat
    ghost var all: seq<Stream>

    constructor (responder: bool)
      ensures Valid()
      ensures forall ctx :: Abs(ctx) == ctx.(streams := map[], objs := [], opens := 0, closed := false,
                                             nextID := M.NewEndpoint(responder).nextID)
    {
      streams := map[];
      nextID := if responder then 1 else 0;
      closed := false;
      opens := 0;
      all := [];
    }

    ghost predicate Valid()
      reads this
    {
      && (forall i :: 0 <= i < |all| ==> all[i].serial == i)
      && (forall k :: k in streams ==> streams[k] in all && streams[k].id == k)
    }

    /** The endpoint this Mux is part of; ctx supplies the read loop and the wire. */
    ghost function Abs(ctx: M.Endpoint): M.Endpoint
      reads this, all
    {
      ctx.(streams := map k | k in streams :: streams[k].serial,
           objs := Objects(all),
           nextID := nextID, opens := opens, closed := closed)
    }

    method Register(id: uint32, ghost outbound: bool, ghost ctx: M.Endpoint) returns (st: Stream)
      requires Valid() && M.Cursor(ctx) >= 0
      modifies this`streams, this`all
      ensures Valid() && fresh(st) && all == old(all) + [st] && st.serial == |old(all)|
      ensures Abs(ctx) == M.Register(old(Abs(ctx)), id, outbound)
    {
      st := new Stream(id, |all|, outbound, M.Cursor(ctx));
      streams := streams[id := st];
      all := all + [st];
      assert Abs(ctx).streams == M.Register(old(Abs(ctx)), id, outbound).streams;
      assert Abs(ctx).objs == M.Register(old(Abs(ctx)), id, outbound).objs;
      assert Abs(ctx) == M.Register(old(Abs(ctx)), id, outbound);
    }

    method Open(ghost ctx: M.Endpoint) returns (st: Stream?)
      requires Valid() && M.Cursor(ctx) >= 0
      modifies this`streams, this`nextID, this`opens, this`all
      ensures Valid()
      ensures st == null <==> old(closed)
      ensures st == null ==> Abs(ctx) == old(Abs(ctx))
      ensures st != null ==>
        && fresh(st) && all == old(all) + [st]
        && Abs(ctx) == M.OpenSection(old(Abs(ctx)))
    {
      if closed {
        return null;
      }
      st := Register(nextID, true, ctx);
      nextID := (nextID + 2) % 0x1_0000_0000;
      opens := opens + 1;
    }

    /** The locked part of dispatch: where frame f goes. */
    method Lookup(f: M.Frame, ghost ctx: M.Endpoint) returns (st: Stream?, isNew: bool)
      requires Valid() && ctx.reader == M.Holding(f) && M.Cursor(ctx) >= 0
      modifies this`streams, this`all
      ensures Valid()
      ensures var r := if st == null then M.Reading else if isNew then M.Accepting(st.serial, f) else M.Delivering(st.serial, f);
              Abs(ctx).(reader := r) == M.LookupSection(old(Abs(ctx)))
    {
      if f.sid in streams {
        return streams[f.sid], false;
      }
      if f.ftype == M.FRAME_META {
        st := Register(f.sid, false, ctx);
        return st, true;
      }
      return null, false;
    }

    /** deliver: the closed check and the select, for a stream that may be full. */
    method Deliver(st: Stream, f: M.Frame, ghost ctx: M.Endpoint, ghost peerSent: seq<M.Frame>) returns (d: Delivery)
      requires Valid() && st in all && ctx.reader == M.Delivering(st.serial, f) && M.Cursor(ctx) >= 0
      modifies st`rcv
      ensures Valid()
      ensures var checked := M.After(old(Abs(ctx)), peerSent, M.CheckClosed);
              match d
              case Dropped => Abs(ctx).(reader := M.Reading) == checked
              case Blocked => Abs(ctx).(reader := M.Selecting(st.serial, f)) == checked
                              && !M.Enabled(checked, peerSent, M.Deliver) && !M.Enabled(checked, peerSent, M.Drop)
              case Queued => M.Enabled(checked, peerSent, M.Deliver)
                             && Abs(ctx).(reader := M.Reading) == M.After(checked, peerSent, M.Deliver)
    {
      if st.closed {
        return Dropped;
      }
      if |st.rcv| >= M.RECV_BUFFER {
        return Blocked;
      }
      st.rcv := st.rcv + [f];
      assert Abs(ctx).objs == old(Abs(ctx)).objs[st.serial := st.Abs()];
      return Queued;
    }

    /** close: once, mark the object and take its ID out of the table. */
    method Close(st: Stream)
      requires Valid() && st in all
      modifies this`streams, st`closed, st`removed
      ensures Valid()
      ensures st.closed && st.removed == (old(st.removed) || !old(st.closed))
      ensures streams == if old(st.closed) then old(streams) else old(streams) - {st.id}
    {
      if !st.closed {
        st.closed := true;
        streams := streams - {st.id};
        st.removed := true;
      }
    }

    method CloseStream(st: Stream, ghost ctx: M.Endpoint)
      requires Valid() && st in all
      modifies this`streams, st`closed, st`removed
      ensures Valid()
      ensures Abs(ctx) == Closed(old(Abs(ctx)), st.serial) && st.closed
    {
      Close(st);
      assert Abs(ctx).objs == Closed(old(Abs(ctx)), st.serial).objs;
      assert Abs(ctx).streams == Closed(old(Abs(ctx)), st.serial).streams;
    }

    /** RecvFrame when a frame is buffered; a control frame closes the stream behind itself. */
    method RecvFrame(st: Stream, ghost ctx: M.Endpoint) returns (f: Option<M.Frame>)
      requires Valid() && st in all
      modifies this`streams, st
      ensures Valid()
      ensures f.None? <==> old(st.rcv) == []
      ensures f.None? ==> Abs(ctx) == old(Abs(ctx))
      ensures f.Some? ==>
        && f.value == old(st.rcv[0])
        && st.returned == old(st.returned) + [f.value]
        && st.closed == (old(st.closed) || f.value.ftype == FRAME_END || f.value.ftype == FRAME_CANCEL || f.value.ftype == FRAME_ERROR)
        && Abs(ctx) == (var got := TakeHead(old(Abs(ctx)), st.serial);
                        if EndsStream(f.value.ftype) then Closed(got, st.serial) else got)
    {
      if |st.rcv| == 0 {
        return None;
      }
      var head := st.rcv[0];
      st.rcv := st.rcv[1..];
      st.returned := st.returned + [head];
      assert Abs(ctx).objs == TakeHead(old(Abs(ctx)), st.serial).objs;
      if EndsStream(head.ftype) {
        CloseStream(st, ctx);
      }
      return Some(head);
    }

    /** shutdown: mark the mux, then close every stream the table held at that moment. What was
        buffered stays buffered. */
    method Shutdown()
      requires Valid()
      modifies this`closed, this`streams, all
      ensures Valid() && closed
      ensures old(closed) ==> streams == old(streams) && unchanged(all)
      ensures !old(closed) ==> forall st :: st in old(streams).Values ==> st.closed
      ensures forall st :: st in all && st !in old(streams).Values ==>
        st.closed == old(st.closed) && st.removed == old(st.removed)
      ensures forall st :: st in all ==> st.rcv == old(st.rcv) && st.returned == old(st.returned)
      ensures !old(closed) ==> forall k :: k in streams ==>
        k in old(streams) && streams[k] == old(streams[k]) && old(streams[k].closed)
    {
      if closed {
        return;
      }
      closed := true;
      ghost var table := streams;
      var rest := streams.Values;
      while rest != {}
        invariant Valid() && closed && rest <= table.Values
        invariant forall st :: st in table.Values && st !in rest ==> st.closed
        invariant forall st :: st in all && (st in rest || st !in table.Values) ==>
          st.closed == old(st.closed) && st.removed == old(st.removed)
        invariant forall st :: st in all ==> st.rcv == old(st.rcv) && st.returned == old(st.returned)
        invariant forall k :: k in streams ==> k in table && streams[k] == table[k]
        invariant forall k :: k in streams && table[k] !in rest ==> old(table[k].closed)
      {
        var st :| st in rest;
        Close(st);
        rest := rest - {st};
      }
    }

    /** SendFrame and writeFrame: what reaches the wire is one whole encoding, or nothing. */
    method SendFrame(st: Stream, ftype: byte, payload: Bytes, w: Wire, crc: Checksum) returns (r: SendResult)
      requires Valid() && st in all
      modifies this`closed, this`streams, all, w
      ensures Valid()
      ensures r == if old(st.closed) then StreamClosed else if old(closed) then MuxClosed
                   else if |payload| > M.MAX_PAYLOAD then TooLarge else Sent
      ensures w.bytes == old(w.bytes) + if r == Sent then Encoding(crc, M.Frame(st.id, ftype, payload)) else []
      ensures closed == (old(closed) || r == TooLarge)
      ensures r != TooLarge ==> streams == old(streams)
    {
      if st.closed {
        return StreamClosed;
      }
      if closed {
        return MuxClosed;
      }
      var ok := EncodeFrame(w, crc, M.Frame(st.id, ftype, payload));
      if !ok {
        Shutdown();
        return TooLarge;
      }
      return Sent;
    }
  }

  /** What close leaves: nothing happens to an object that is closed already. */
  ghost function Closed(e: M.Endpoint, o: nat): M.Endpoint
    requires o < |e.objs|
  {
    if e.objs[o].closed then e
    else e.(objs := e.objs[o := e.objs[o].(closed := true, removed := true)],
            streams := e.streams - {e.objs[o].id})
  }

  lemma CloseIsTwoSteps(e: M.Endpoint, o: nat)
    requires o < |e.objs| && !e.objs[o].closed && !e.objs[o].removed && M.Cursor(e) >= 0
    ensures M.Enabled(e, [], M.CloseStream(o))
    ensures var marked := M.After(e, [], M.CloseStream(o));
            M.Enabled(marked, [], M.Remove(o)) && M.After(marked, [], M.Remove(o)) == Closed(e, o)
  {
    assert e.objs[o := e.objs[o].(closed := true)][o := e.objs[o].(closed := true, removed := true)]
        == e.objs[o := e.objs[o].(closed := true, removed := true)];
  }

  /** What taking the first buffered frame leaves; it is the protocol's Receive. */
  ghost function TakeHead(e: M.Endpoint, o: nat): (e': M.Endpoint)
    requires o < |e.objs| && e.objs[o].rcv != []
    ensures |e'.objs| == |e.objs|
    ensures M.Cursor(e) >= 0 ==> M.Enabled(e, [], M.Receive(o)) && e' == M.After(e, [], M.Receive(o))
  {
    var st := e.objs[o];
    e.(objs := e.objs[o := st.(rcv := st.rcv[1..], returned := st.returned + [st.rcv[0]])])
  }
}
