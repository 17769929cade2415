/** One end of a multiplexed connection: its stream table, its stream objects, the read loop, and the
    frames it has put on its outgoing wire. */
module MuxState {
  import opened Bytes

  datatype Frame = Frame(sid: uint32, ftype: byte, payload: Bytes)

  const FRAME_META: byte := 2
  const MAX_PAYLOAD := 4194304 + 1024
  const RECV_BUFFER := 128
  const ACCEPT_BUFFER := 16

  /** A stream object. `returned` is the history of RecvFrame; `since` is how many frames of the
      incoming wire had been looked up when the object was registered; `outbound` tells Open from a
      stream that an inbound META created. */
  datatype Stream = Stream(
    id: uint32, outbound: bool, since: nat, rcv: seq<Frame>, returned: seq<Frame>, closed: bool, removed: bool)

  /** Where the read loop is. */
  datatype Reader =
    | Reading
    | Holding(f: Frame)              // decoded, not looked up yet
    | Accepting(o: nat, f: Frame)    // registered a new stream, offering it to Accept
    | Delivering(o: nat, f: Frame)   // about to check the stream's closed flag
    | Selecting(o: nat, f: Frame)    // saw it open, blocked in the select

  datatype Endpoint = Endpoint(
    streams: map<uint32, nat>,  // the table: ID to object
    objs: seq<Stream>,          // every object ever made
    nextID: uint32,
    opens: nat,                 // how many Opens succeeded
    closed: bool,
    accept: seq<nat>,
    taken: seq<nat>,            // history of Accept
    reader: Reader,
    outbox: multiset<Frame>,    // frames of senders that passed the closed check
    sent: seq<Frame>,           // history of the outgoing wire
    read: nat)                  // frames decoded from the incoming wire

  function NewStream(id: uint32, outbound: bool, since: nat): Stream {
    Stream(id, outbound, since, [], [], false, false)
  }

  function NewEndpoint(responder: bool): Endpoint {
    Endpoint(map[], [], if responder then 1 else 0, 0, false, [], [], Reading, multiset{}, [], 0)
  }

  /** Frames looked up so far. */
  function Cursor(e: Endpoint): int {
    if e.reader.Holding? then e.read - 1 else e.read
  }

  datatype Step =
    | Open
    | Decode
    | Lookup
    | AcceptPush
    | AcceptAbort
    | AcceptTake
    | CheckClosed
    | Deliver
    | Drop
    | Receive(o: nat)
    | CloseStream(o: nat)
    | Remove(o: nat)
    | CheckSend(o: nat, ftype: byte, payload: Bytes)
    | Write(f: Frame)
    | WriteFails(f: Frame)
    | Shutdown

  ghost predicate Enabled(e: Endpoint, peerSent: seq<Frame>, step: Step) {
    match step
    case Open => !e.closed
    case Decode => e.reader.Reading? && e.read < |peerSent|
    case Lookup => e.reader.Holding?
    case AcceptPush => e.reader.Accepting? && |e.accept| < ACCEPT_BUFFER
    case AcceptAbort => e.reader.Accepting? && e.reader.o < |e.objs| && e.closed
    case AcceptTake => e.accept != []
    case CheckClosed => e.reader.Delivering? && e.reader.o < |e.objs|
    case Deliver => e.reader.Selecting? && e.reader.o < |e.objs| && |e.objs[e.reader.o].rcv| < RECV_BUFFER
    case Drop => e.reader.Selecting? && e.reader.o < |e.objs| && e.objs[e.reader.o].closed
    case Receive(o) => o < |e.objs| && e.objs[o].rcv != []
    case CloseStream(o) => o < |e.objs| && !e.objs[o].closed
    case Remove(o) => o < |e.objs| && e.objs[o].closed && !e.objs[o].removed
    case CheckSend(o, _, _) => o < |e.objs| && !e.objs[o].closed
    case Write(f) => f in e.outbox && |f.payload| <= MAX_PAYLOAD  // closed is looked at before, under another lock
    case WriteFails(f) => f in e.outbox
    case Shutdown => true
  }

  /** Registers a stream object under id, over whatever the table holds there. */
  function Register(e: Endpoint, id: uint32, outbound: bool): Endpoint
    requires Cursor(e) >= 0
  {
    e.(streams := e.streams[id := |e.objs|], objs := e.objs + [NewStream(id, outbound, Cursor(e))])
  }

  function OpenSection(e: Endpoint): Endpoint
    requires Cursor(e) >= 0
  {
    Register(e, e.nextID, true).(nextID := (e.nextID + 2) % 0x1_0000_0000, opens := e.opens + 1)
  }

  /** The table lookup of dispatch: route, open on META, or drop. */
  function LookupSection(e: Endpoint): Endpoint
    requires e.reader.Holding? && Cursor(e) >= 0
  {
    var f := e.reader.f;
    if f.sid in e.streams then e.(reader := Delivering(e.streams[f.sid], f))
    else if f.ftype == FRAME_META then Register(e, f.sid, false).(reader := Accepting(|e.objs|, f))
    else e.(reader := Reading)
  }

  function WithObj(e: Endpoint, o: nat, st: Stream): Endpoint
    requires o < |e.objs|
  {
    e.(objs := e.objs[o := st])
  }

  ghost function After(e: Endpoint, peerSent: seq<Frame>, step: Step): Endpoint
    requires Enabled(e, peerSent, step) && Cursor(e) >= 0
  {
    match step
    case Open => OpenSection(e)
    case Decode => e.(reader := Holding(peerSent[e.read]), read := e.read + 1)
    case Lookup => LookupSection(e)
    case AcceptPush => e.(accept := e.accept + [e.reader.o], reader := Delivering(e.reader.o, e.reader.f))
    case AcceptAbort => WithObj(e, e.reader.o, e.objs[e.reader.o].(closed := true)).(reader := Reading)
    case AcceptTake => e.(accept := e.accept[1..], taken := e.taken + [e.accept[0]])
    case CheckClosed =>
      e.(reader := if e.objs[e.reader.o].closed then Reading else Selecting(e.reader.o, e.reader.f))
    case Deliver =>
      var st := e.objs[e.reader.o];
      WithObj(e, e.reader.o, st.(rcv := st.rcv + [e.reader.f])).(reader := Reading)
    case Drop => e.(reader := Reading)
    case Receive(o) =>
      var st := e.objs[o];
      WithObj(e, o, st.(rcv := st.rcv[1..], returned := st.returned + [st.rcv[0]]))
    case CloseStream(o) => WithObj(e, o, e.objs[o].(closed := true))
    case Remove(o) => WithObj(e, o, e.objs[o].(removed := true)).(streams := e.streams - {e.objs[o].id})
    case CheckSend(o, ftype, payload) =>
      e.(outbox := e.outbox + multiset{Frame(e.objs[o].id, ftype, payload)})
    case Write(f) => e.(outbox := e.outbox - multiset{f}, sent := e.sent + [f])
    case WriteFails(f) => e.(outbox := e.outbox - multiset{f}, closed := true)
    case Shutdown => e.(closed := true)
  }
}
