/** Frames of ciphertext on a byte stream, read back as plaintext in pieces of any size. */
module EncryptedConn {
  import opened Bytes

  const MAX_FRAME := 16 * 1024 * 1024

  /** A pair of matching cipher states, as functions of the message number. */
  datatype Cipher = Cipher(enc: (nat, Bytes) -> Bytes, dec: (nat, Bytes) -> Option<Bytes>)

  ghost predicate Inverts(c: Cipher) {
    forall n: nat, p: Bytes :: c.dec(n, c.enc(n, p)) == Some(p)
  }

  datatype Failure =
    | NoFailure
    | BareEof        // io.EOF: nothing left to read
    | UnexpectedEof  // io.ErrUnexpectedEOF: less left than was needed
    | WrappedEof     // an error that wraps one of the two and is equal to neither
    | FrameTooLarge
    | DecryptFailed

  /** fmt.Errorf with %w. */
  function Wrap(f: Failure): Failure {
    if f == BareEof || f == UnexpectedEof then WrappedEof else f
  }

  // ---- the sending side ----

  function FrameOf(c: Cipher, n: nat, p: Bytes): Bytes {
    var ct := c.enc(n, p);
    PutUint32(|ct| % 0x1_0000_0000) + ct
  }

  /** What writing these plaintexts in turn puts on the stream. */
  ghost function WireOf(c: Cipher, n: nat, ps: seq<Bytes>): Bytes
    decreases |ps|
  {
    if ps == [] then [] else FrameOf(c, n, ps[0]) + WireOf(c, n + 1, ps[1..])
  }

  lemma {:induction false} WireOfAppend(c: Cipher, n: nat, ps: seq<Bytes>, p: Bytes)
    ensures WireOf(c, n, ps + [p]) == WireOf(c, n, ps) + FrameOf(c, n + |ps|, p)
    decreases |ps|
  {
    if ps == [] {
      assert [p][1..] == [] && [] + [p] == [p];
      assert FrameOf(c, n, p) + [] == FrameOf(c, n, p) == [] + FrameOf(c, n, p);
    } else {
      assert (ps + [p])[0] == ps[0] && (ps + [p])[1..] == ps[1..] + [p];
      WireOfAppend(c, n + 1, ps[1..], p);
      Associate(FrameOf(c, n, ps[0]), WireOf(c, n + 1, ps[1..]), FrameOf(c, n + |ps|, p));
    }
  }

  lemma {:induction false} WireOfConcat(c: Cipher, n: nat, a: seq<Bytes>, b: seq<Bytes>)
    ensures WireOf(c, n, a + b) == WireOf(c, n, a) + WireOf(c, n + |a|, b)
    decreases |a|
  {
    if a == [] {
      assert a + b == b;
    } else {
      assert (a + b)[0] == a[0] && (a + b)[1..] == a[1..] + b;
      WireOfConcat(c, n + 1, a[1..], b);
      Associate(FrameOf(c, n, a[0]), WireOf(c, n + 1, a[1..]), WireOf(c, n + |a|, b));
    }
  }

  lemma WireOfFirst(c: Cipher, n: nat, p: Bytes, rest: seq<Bytes>)
    ensures WireOf(c, n, [p] + rest) == FrameOf(c, n, p) + WireOf(c, n + 1, rest)
  {
    assert ([p] + rest)[1..] == rest;
  }

  /** Every Write is on the wire under its own message number, behind the length of its ciphertext. */
  lemma FramesAreNumbered(c: Cipher, before: seq<Bytes>, p: Bytes, after: seq<Bytes>)
    ensures var ct := c.enc(|before|, p);
            WireOf(c, 0, before + ([p] + after)) ==
            WireOf(c, 0, before) + (PutUint32(|ct| % 0x1_0000_0000) + ct + WireOf(c, |before| + 1, after))
  {
    WireOfConcat(c, 0, before, [p] + after);
    WireOfFirst(c, |before|, p, after);
  }

  class Sender {
    const cipher: Cipher
    var nonce: nat
    var out: Bytes
    ghost var written: seq<Bytes>

    ghost predicate Valid()
      reads this
    {
      nonce == |written| && out == WireOf(cipher, 0, written)
    }

    constructor (cipher: Cipher)
      ensures Valid() && this.cipher == cipher && written == []
    {
      this.cipher := cipher;
      nonce := 0;
      out := [];
      written := [];
    }

    method Write(p: Bytes)
      requires Valid()
      modifies this
      ensures Valid() && written == old(written) + [p]
    {
      var ct := cipher.enc(nonce, p);
      var header := PutUint32(|ct| % 0x1_0000_0000);
      WireOfAppend(cipher, 0, written, p);
      Associate(out, header, ct);
      out := out + header;
      out := out + ct;
      nonce := nonce + 1;
      written := written + [p];
    }
  }

  // ---- the receiving side, on values ----

  /** Unread stream, plaintext left over from the last frame, next message number. */
  datatype Conn = Conn(wire: Bytes, buf: Bytes, nonce: nat)

  datatype Got = Got(conn: Conn, data: Bytes, failure: Failure)

  /** One Read with room for k bytes: the left-over first, else one whole frame. */
  function ReadOnce(c: Cipher, s: Conn, k: nat): Got {
    if s.buf != [] then
      var n := Min(k, |s.buf|);
      Got(s.(buf := s.buf[n..]), s.buf[..n], NoFailure)
    else if |s.wire| < 4 then Got(s.(wire := []), [], WrappedEof)
    else
      var size := Uint32(s.wire[..4]);
      var rest := s.wire[4..];
      if size > MAX_FRAME then Got(s.(wire := rest), [], FrameTooLarge)
      else if |rest| < size then Got(s.(wire := []), [], WrappedEof)
      else
        var plain := c.dec(s.nonce, rest[..size]);
        if plain.None? then Got(s.(wire := rest[size..]), [], DecryptFailed)
        else
          var n := Min(k, |plain.value|);
          Got(Conn(rest[size..], plain.value[n..], s.nonce + 1), plain.value[..n], NoFailure)
  }

  /** Less than a frame: too little for a length, or less than the length says. */
  predicate Partial(tail: Bytes) {
    |tail| < 4 || (Uint32(tail[..4]) <= MAX_FRAME && |tail| - 4 < Uint32(tail[..4]))
  }

  /** The stream holds exactly these frames still, and at most a part of one more. */
  ghost predicate Holds(c: Cipher, s: Conn, frames: seq<Bytes>) {
    var w := WireOf(c, s.nonce, frames);
    w <= s.wire && Partial(s.wire[|w|..])
  }

  ghost predicate FramesFit(c: Cipher, n: nat, frames: seq<Bytes>) {
    forall i :: 0 <= i < |frames| ==> |c.enc(n + i, frames[i])| <= MAX_FRAME
  }

  ghost predicate Transmits(c: Cipher, s: Conn, frames: seq<Bytes>) {
    Inverts(c) && Holds(c, s, frames) && FramesFit(c, s.nonce, frames)
  }

  /** The frames a Read leaves on the stream. */
  ghost function FramesAfter(s: Conn, frames: seq<Bytes>): seq<Bytes> {
    if s.buf != [] || frames == [] then frames else frames[1..]
  }

  lemma FrameComesBack(c: Cipher, n: nat, p: Bytes, rest: Bytes)
    requires |c.enc(n, p)| <= MAX_FRAME
    ensures var w := FrameOf(c, n, p) + rest;
            && |w| >= 4 && Uint32(w[..4]) == |c.enc(n, p)|
            && |w[4..]| >= |c.enc(n, p)|
            && w[4..][..|c.enc(n, p)|] == c.enc(n, p)
            && w[4..][|c.enc(n, p)|..] == rest
  {
    var ct := c.enc(n, p);
    var w := FrameOf(c, n, p) + rest;
    assert w[..4] == PutUint32(|ct|);
    Uint32RoundTrip(|ct|);
    assert w[4..] == ct + rest;
  }

  lemma ReadNextFrame(c: Cipher, s: Conn, frames: seq<Bytes>, k: nat)
    requires Transmits(c, s, frames) && s.buf == [] && frames != []
    ensures var n := Min(k, |frames[0]|);
            var wire := s.wire[|FrameOf(c, s.nonce, frames[0])|..];
            && |s.wire| >= |FrameOf(c, s.nonce, frames[0])|
            && ReadOnce(c, s, k) == Got(Conn(wire, frames[0][n..], s.nonce + 1), frames[0][..n], NoFailure)
            && Holds(c, Conn(wire, frames[0][n..], s.nonce + 1), frames[1..])
  {
    assert |c.enc(s.nonce + 0, frames[0])| <= MAX_FRAME;
    var f, more := FrameOf(c, s.nonce, frames[0]), WireOf(c, s.nonce + 1, frames[1..]);
    var tail := s.wire[|f + more|..];
    assert s.wire == f + more + tail;
    Associate(f, more, tail);
    FrameComesBack(c, s.nonce, frames[0], more + tail);
    assert s.wire[|f|..] == more + tail;
    assert (more + tail)[|more|..] == tail;
  }

  /** A frame that is cut anywhere is a part of a frame. */
  lemma CutFrameIsPartial(c: Cipher, n: nat, p: Bytes, k: nat)
    requires |c.enc(n, p)| <= MAX_FRAME && k < |FrameOf(c, n, p)|
    ensures Partial(FrameOf(c, n, p)[..k])
  {
    if k >= 4 {
      FrameComesBack(c, n, p, []);
      assert FrameOf(c, n, p) + [] == FrameOf(c, n, p);
      assert FrameOf(c, n, p)[..k][..4] == FrameOf(c, n, p)[..4];
    }
  }

  /** How many of these frames lie whole in the first k bytes of the wire. */
  ghost function WholeFrames(c: Cipher, n: nat, frames: seq<Bytes>, k: nat): (m: nat)
    ensures m <= |frames|
    decreases |frames|
  {
    if frames == [] || k < |FrameOf(c, n, frames[0])| then 0
    else 1 + WholeFrames(c, n + 1, frames[1..], k - |FrameOf(c, n, frames[0])|)
  }

  /** A wire that is cut anywhere holds the whole frames before the cut. */
  lemma {:induction false} CutWireHolds(c: Cipher, n: nat, frames: seq<Bytes>, k: nat)
    requires FramesFit(c, n, frames) && k <= |WireOf(c, n, frames)|
    ensures var w := WireOf(c, n, frames[..WholeFrames(c, n, frames, k)]);
            && |w| <= k && WireOf(c, n, frames)[..k] == w + WireOf(c, n, frames)[|w|..k]
            && Partial(WireOf(c, n, frames)[|w|..k])
    decreases |frames|
  {
    var m := WholeFrames(c, n, frames, k);
    if frames != [] {
      assert |c.enc(n + 0, frames[0])| <= MAX_FRAME;
      var f, more := FrameOf(c, n, frames[0]), WireOf(c, n + 1, frames[1..]);
      if k < |f| {
        CutFrameIsPartial(c, n, frames[0], k);
        assert frames[..0] == [];
        assert (f + more)[..k] == f[..k];
      } else {
        RestFits(c, n, frames);
        CutWireHolds(c, n + 1, frames[1..], k - |f|);
        assert frames[..m][1..] == frames[1..][..m - 1];
        CutBehind(f, more, WireOf(c, n + 1, frames[1..][..m - 1]), k);
      }
    }
  }

  lemma CutBehind(f: Bytes, more: Bytes, w: Bytes, k: nat)
    requires |f| <= k <= |f| + |more| && |w| <= k - |f| && more[..k - |f|] == w + more[|w|..k - |f|]
    ensures (f + more)[..k] == (f + w) + (f + more)[|f + w|..k]
    ensures (f + more)[|f + w|..k] == more[|w|..k - |f|]
  {
  }

  lemma RestFits(c: Cipher, n: nat, frames: seq<Bytes>)
    requires FramesFit(c, n, frames) && frames != []
    ensures FramesFit(c, n + 1, frames[1..])
  {
    forall i | 0 <= i < |frames[1..]| ensures |c.enc(n + 1 + i, frames[1..][i])| <= MAX_FRAME {
      assert |c.enc(n + (i + 1), frames[i + 1])| <= MAX_FRAME;
    }
  }

  /** What a Read gives: bytes of one frame only, in order, and a failure only when there are none. */
  ghost predicate GivesPiece(c: Cipher, s: Conn, frames: seq<Bytes>, k: nat, g: Got) {
    && Transmits(c, g.conn, FramesAfter(s, frames))
    && (g.failure == NoFailure <==> s.buf != [] || frames != [])
    && (g.failure != NoFailure ==> g.failure == WrappedEof && g.data == [] && g.conn.buf == [])
    && (g.failure == NoFailure ==>
         var piece := if s.buf != [] then s.buf else frames[0];
         && g.data + g.conn.buf == piece && |g.data| == Min(k, |piece|))
  }

  lemma ReadLeftOver(c: Cipher, s: Conn, frames: seq<Bytes>, k: nat)
    requires Transmits(c, s, frames) && s.buf != []
    ensures GivesPiece(c, s, frames, k, ReadOnce(c, s, k))
  {
  }

  lemma ReadFresh(c: Cipher, s: Conn, frames: seq<Bytes>, k: nat)
    requires Transmits(c, s, frames) && s.buf == [] && frames != []
    ensures GivesPiece(c, s, frames, k, ReadOnce(c, s, k))
  {
    ReadNextFrame(c, s, frames, k);
    RestFits(c, s.nonce, frames);
  }

  lemma ReadNothing(c: Cipher, s: Conn, k: nat)
    requires Transmits(c, s, []) && s.buf == []
    ensures GivesPiece(c, s, [], k, ReadOnce(c, s, k))
  {
    assert s.wire[|WireOf(c, s.nonce, [])|..] == s.wire;
  }

  lemma ReadTransmits(c: Cipher, s: Conn, frames: seq<Bytes>, k: nat)
    requires Transmits(c, s, frames)
    ensures GivesPiece(c, s, frames, k, ReadOnce(c, s, k))
  {
    if s.buf != [] {
      ReadLeftOver(c, s, frames, k);
    } else if frames != [] {
      ReadFresh(c, s, frames, k);
    } else {
      ReadNothing(c, s, k);
    }
  }

  /** Everything still to be read. */
  ghost function Pending(s: Conn, frames: seq<Bytes>): Bytes {
    s.buf + Concat(frames)
  }

  lemma ReadConserves(c: Cipher, s: Conn, frames: seq<Bytes>, k: nat)
    requires Transmits(c, s, frames)
    ensures ReadOnce(c, s, k).data + Pending(ReadOnce(c, s, k).conn, FramesAfter(s, frames)) == Pending(s, frames)
  {
    var g := ReadOnce(c, s, k);
    ReadTransmits(c, s, frames, k);
    if g.failure == NoFailure {
      Associate(g.data, g.conn.buf, Concat(FramesAfter(s, frames)));
      if s.buf == [] {
        assert [] + Concat(frames) == Concat(frames) == frames[0] + Concat(frames[1..]);
      }
    }
  }

  /** The end of the stream never comes through as the bare io.EOF. */
  lemma EndIsWrapped(c: Cipher, s: Conn, k: nat)
    ensures ReadOnce(c, s, k).failure != BareEof
    ensures s.buf == [] && s.wire == [] ==> ReadOnce(c, s, k).failure == WrappedEof
  {
  }

  // ---- any sequence of Reads ----

  datatype Drained = Drained(conn: Conn, data: Bytes, frames: seq<Bytes>, ended: bool)

  /** Reads with these buffer sizes in turn, up to the first failure. */
  ghost function ReadMany(c: Cipher, s: Conn, frames: seq<Bytes>, sizes: seq<nat>): Drained
    decreases |sizes|
  {
    if sizes == [] then Drained(s, [], frames, false)
    else
      var g := ReadOnce(c, s, sizes[0]);
      if g.failure != NoFailure then Drained(g.conn, [], frames, true)
      else
        var more := ReadMany(c, g.conn, FramesAfter(s, frames), sizes[1..]);
        more.(data := g.data + more.data)
  }

  /** Whatever the buffer sizes: the bytes read, followed by what is still pending, are the bytes that
      were pending; and a failure means that nothing was. */
  lemma {:induction false} ReadManyConserves(c: Cipher, s: Conn, frames: seq<Bytes>, sizes: seq<nat>)
    requires Transmits(c, s, frames)
    ensures var d := ReadMany(c, s, frames, sizes);
            && Transmits(c, d.conn, d.frames)
            && d.data + Pending(d.conn, d.frames) == Pending(s, frames)
            && (d.ended ==> d.data == Pending(s, frames))
    decreases |sizes|
  {
    if sizes == [] {
      assert [] + Pending(s, frames) == Pending(s, frames);
    } else {
      var g := ReadOnce(c, s, sizes[0]);
      ReadTransmits(c, s, frames, sizes[0]);
      ReadConserves(c, s, frames, sizes[0]);
      if g.failure == NoFailure {
        var next := FramesAfter(s, frames);
        ReadManyConserves(c, g.conn, next, sizes[1..]);
        var more := ReadMany(c, g.conn, next, sizes[1..]);
        Associate(g.data, more.data, Pending(more.conn, more.frames));
      } else {
        assert frames == [] && Pending(s, frames) == [] + [];
      }
    }
  }

  // ---- the receiving side, as code ----

  class Receiver {
    const cipher: Cipher
    var wire: Bytes
    var buf: Bytes
    var nonce: nat

    ghost function Abs(): Conn
      reads this
    {
      Conn(wire, buf, nonce)
    }

    constructor (cipher: Cipher, wire: Bytes)
      ensures this.cipher == cipher && Abs() == Conn(wire, [], 0)
    {
      this.cipher := cipher;
      this.wire := wire;
      buf := [];
      nonce := 0;
    }

    /** io.ReadFull on the stream below. */
    method ReadFull(n: nat) returns (data: Bytes, failure: Failure)
      modifies this`wire
      ensures failure == if |old(wire)| >= n then NoFailure else if old(wire) == [] then BareEof else UnexpectedEof
      ensures failure == NoFailure ==> data == old(wire)[..n] && wire == old(wire)[n..]
      ensures failure != NoFailure ==> data == [] && wire == []
    {
      if |wire| >= n {
        data := wire[..n];
        wire := wire[n..];
        return data, NoFailure;
      }
      failure := if wire == [] then BareEof else UnexpectedEof;
      wire := [];
      data := [];
    }

    method ReadFrame() returns (data: Bytes, failure: Failure)
      modifies this`wire
      ensures failure == NoFailure ==>
        && |old(wire)| >= 4 && Uint32(old(wire)[..4]) == |data| <= MAX_FRAME
        && |old(wire)| >= 4 + |data|
        && data == old(wire)[4..][..|data|] && wire == old(wire)[4..][|data|..]
      ensures failure == FrameTooLarge ==>
        |old(wire)| >= 4 && Uint32(old(wire)[..4]) > MAX_FRAME && wire == old(wire)[4..]
      ensures failure == WrappedEof ==>
        && wire == []
        && (|old(wire)| < 4 || (Uint32(old(wire)[..4]) <= MAX_FRAME && |old(wire)| < 4 + Uint32(old(wire)[..4])))
      ensures failure in {NoFailure, FrameTooLarge, WrappedEof}
    {
      var header;
      header, failure := ReadFull(4);
      if failure != NoFailure {
        return [], Wrap(failure);
      }
      var size := Uint32(header);
      if size > MAX_FRAME {
        return [], FrameTooLarge;
      }
      data, failure := ReadFull(size);
      if failure != NoFailure {
        return [], Wrap(failure);
      }
    }

    /** Less is left to read: of the stream, or else of the current frame. */
    twostate predicate Less()
      reads this
    {
      |wire| < |old(wire)| || (|wire| == |old(wire)| && |buf| < |old(buf)|)
    }

    twostate predicate NoMore()
      reads this
    {
      |wire| < |old(wire)| || (|wire| == |old(wire)| && |buf| <= |old(buf)|)
    }

    method Read(k: nat) returns (data: Bytes, failure: Failure)
      modifies this
      ensures ReadOnce(cipher, old(Abs()), k) == Got(Abs(), data, failure)
      ensures |data| <= k
      ensures failure == NoFailure && k > 0 ==> Less()
      ensures failure != NoFailure ==> data == [] && buf == old(buf) && |wire| <= |old(wire)|
    {
      if |buf| > 0 {
        var n := Min(k, |buf|);
        data := buf[..n];
        buf := buf[n..];
        return data, NoFailure;
      }
      var frame;
      frame, failure := ReadFrame();
      if failure != NoFailure {
        return [], failure;
      }
      var plain := cipher.dec(nonce, frame);
      if plain.None? {
        return [], DecryptFailed;
      }
      nonce := nonce + 1;
      var n := Min(k, |plain.value|);
      data := plain.value[..n];
      buf := plain.value[n..];
      return data, NoFailure;
    }

    /** No whole frame is left. */
    ghost predicate Ended()
      reads this
    {
      buf == [] && Transmits(cipher, Abs(), [])
    }

    /** Read, on a stream known to hold these frames. */
    method ReadFrom(k: nat, ghost frames: seq<Bytes>) returns (data: Bytes, failure: Failure, ghost left: seq<Bytes>)
      modifies this
      ensures |data| <= k
      ensures failure == NoFailure && k > 0 ==> Less()
      ensures failure != NoFailure ==> data == [] && buf == old(buf) && |wire| <= |old(wire)|
      ensures old(Transmits(cipher, Abs(), frames)) ==>
        && Transmits(cipher, Abs(), left) && left == FramesAfter(old(Abs()), frames)
        && data + Pending(Abs(), left) == Pending(old(Abs()), frames)
        && (failure == NoFailure <==> old(buf) != [] || frames != [])
        && (failure == NoFailure ==>
             var piece := if old(buf) != [] then old(buf) else frames[0];
             data + buf == piece && |data| == Min(k, |piece|))
        && (failure != NoFailure ==> failure == WrappedEof)
      ensures failure != BareEof
      ensures old(Ended()) ==> failure != NoFailure && Ended()
    {
      ghost var conn := Abs();
      data, failure := Read(k);
      if conn.buf == [] && Transmits(cipher, conn, []) {
        ReadTransmits(cipher, conn, [], k);
      }
      EndIsWrapped(cipher, conn, k);
      left := FramesAfter(conn, frames);
      if Transmits(cipher, conn, frames) {
        ReadTransmits(cipher, conn, frames, k);
        ReadConserves(cipher, conn, frames, k);
      }
    }
  }
}
