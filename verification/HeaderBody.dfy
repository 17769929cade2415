/** A text header in the first frame, the file's bytes in the frames after it; and the throw-away
    buffered reader through which the receiver takes the header. */
module HeaderBody {
  import opened Bytes
  import opened Text
  import opened EncryptedConn

  const BUFIO_SIZE := 4096
  const MAX_EMPTY_READS := 100
  const COPY_BUFFER := 256 * 1024
  const MAX_NAME := 4096
  const CARRIAGE_RETURN: byte := 13

  function Magic(): Bytes {
    Ascii("LANOS_FILEv1")
  }

  // ---- the header as text ----

  predicate OneLine(s: Bytes) {
    NEWLINE !in s
  }

  function Line(s: Bytes): Bytes {
    s + [NEWLINE]
  }

  function FourLines(a: Bytes, b: Bytes, c: Bytes, d: Bytes): Bytes {
    Line(a) + (Line(b) + (Line(c) + Line(d)))
  }

  function HeaderText(id: Bytes, size: int, name: Bytes): Bytes {
    FourLines(Magic(), id, Itoa(size), name)
  }

  datatype HeaderResult =
    | Header(id: Bytes, name: Bytes, size: int)
    | ReadFailed
    | UnknownProtocol
    | BadSize
    | BadName

  /** What ReadHeader makes of four lines. */
  function ParseLines(a: Bytes, b: Bytes, c: Bytes, d: Bytes): HeaderResult {
    if Trim(a) != Magic() then UnknownProtocol
    else
      var size := ParseInt(Trim(c));
      if size.None? || size.value < 0 then BadSize
      else if |Trim(d)| == 0 || |Trim(d)| > MAX_NAME then BadName
      else Header(Trim(b), Trim(d), size.value)
  }

  /** What a header must be: the protocol's name, a size that is a numeral, and a name of 1 to 4096 bytes, each
      up to white space at its edges. */
  ghost predicate Speaks(a: Bytes) {
    Trim(a) == Ascii("LANOS_FILEv1")
  }

  ghost predicate HasSize(c: Bytes) {
    exists n: nat :: Numeral(Trim(c), n)
  }

  predicate HasName(d: Bytes) {
    1 <= |Trim(d)| <= 4096
  }

  /** The first line that is wrong decides; without one the fields come out. */
  ghost predicate Judged(a: Bytes, b: Bytes, c: Bytes, d: Bytes, h: HeaderResult) {
    if !Speaks(a) then h == UnknownProtocol
    else if !HasSize(c) then h == BadSize
    else if !HasName(d) then h == BadName
    else h.Header? && h.id == Trim(b) && h.name == Trim(d) && h.size >= 0 && Numeral(Trim(c), h.size)
  }

  lemma LinesAreJudged(a: Bytes, b: Bytes, c: Bytes, d: Bytes)
    ensures Judged(a, b, c, d, ParseLines(a, b, c, d))
  {
    var size := ParseInt(Trim(c));
    if size.Some? { ParseIntIff(Trim(c), size.value); }
    if HasSize(c) {
      var n: nat :| Numeral(Trim(c), n);
      ParseIntIff(Trim(c), n);
    }
  }

  lemma MagicIsClean()
    ensures Trim(Magic()) == Magic() && OneLine(Magic())
  {
    var m := Magic();
    assert m[0] == 76 && m[|m| - 1] == 49;
    assert NoEdgeSpace(m);
    TrimKeepsIff(m);
  }

  lemma SizeIsClean(size: nat)
    ensures Trim(Itoa(size)) == Itoa(size) && OneLine(Itoa(size))
  {
    DigitsHaveNoSpace(Itoa(size));
    TrimKeepsIff(Itoa(size));
  }

  /** The fields come back trimmed, if the trimmed name has an allowed length. */
  lemma ParseOfHeader(id: Bytes, size: nat, name: Bytes)
    requires size <= MAX_INT64
    ensures ParseLines(Magic(), id, Itoa(size), name)
         == if 0 < |Trim(name)| <= MAX_NAME then Header(Trim(id), Trim(name), size) else BadName
  {
    MagicIsClean();
    SizeIsClean(size);
    ParseIntOfItoa(size);
  }

  /** Exactly which headers come back as they were sent. */
  lemma HeaderRoundTripIff(id: Bytes, size: nat, name: Bytes)
    requires size <= MAX_INT64
    ensures ParseLines(Magic(), id, Itoa(size), name) == Header(id, name, size)
            <==> NoEdgeSpace(id) && NoEdgeSpace(name) && 0 < |name| <= MAX_NAME
  {
    ParseOfHeader(id, size, name);
    TrimKeepsIff(id);
    TrimKeepsIff(name);
  }

  /** A text splits at its first line break in one way only. */
  lemma FirstLine(x: Bytes, rest: Bytes, a: Bytes, b: Bytes)
    requires OneLine(x) && OneLine(a) && Line(x) + rest == Line(a) + b
    ensures x == a && rest == b
  {
    var t := Line(x) + rest;
    assert t[|x|] == NEWLINE && t[|a|] == NEWLINE;
    assert forall i :: 0 <= i < |x| ==> t[i] == x[i] && x[i] in x;
    assert forall i :: 0 <= i < |a| ==> t[i] == a[i] && a[i] in a;
    assert x == t[..|x|] == a;
    assert rest == t[|x| + 1..] == b;
  }

  // ---- the sender ----

  method SendHeader(s: Sender, id: Bytes, name: Bytes, size: int) returns (ok: bool)
    requires s.Valid()
    modifies s
    ensures s.Valid()
    ensures ok <==> NEWLINE !in name && CARRIAGE_RETURN !in name
    ensures s.written == old(s.written) + if ok then [HeaderText(id, size, name)] else []
  {
    if NEWLINE in name || CARRIAGE_RETURN in name {
      return false;
    }
    s.Write(HeaderText(id, size, name));
    return true;
  }

  ghost predicate BodyFrames(bodies: seq<Bytes>) {
    forall i :: 0 <= i < |bodies| ==> 0 < |bodies[i]| <= COPY_BUFFER
  }

  /** streamFile. `cancelled` says at which turn of the loop the context is found cancelled; each file
      read may return fewer bytes than asked for. */
  method StreamFile(s: Sender, file: Bytes, cancelled: nat -> bool) returns (total: nat, stopped: bool, ghost bodies: seq<Bytes>)
    requires s.Valid()
    modifies s
    ensures s.Valid()
    ensures s.written == old(s.written) + bodies && BodyFrames(bodies)
    ensures total <= |file| && Concat(bodies) == file[..total]
    ensures !stopped ==> total == |file|
    ensures stopped <==> cancelled(|bodies|)
    ensures forall t :: 0 <= t < |bodies| ==> !cancelled(t)
  {
    total := 0;
    bodies := [];
    var turn: nat := 0;
    while true
      invariant s.Valid() && total <= |file| && turn == |bodies|
      invariant s.written == old(s.written) + bodies && BodyFrames(bodies)
      invariant Concat(bodies) == file[..total]
      invariant forall t :: 0 <= t < turn ==> !cancelled(t)
      decreases |file| - total
    {
      if cancelled(turn) {
        return total, true, bodies;
      }
      if total == |file| {
        break;
      }
      var n: nat :| 1 <= n <= COPY_BUFFER && total + n <= |file|;
      var piece := file[total..total + n];
      s.Write(piece);
      ConcatOne(bodies, piece);
      assert file[..total] + piece == file[..total + n];
      bodies := bodies + [piece];
      total := total + n;
      turn := turn + 1;
    }
    return total, false, bodies;
  }

  // ---- the receiver ----

  datatype LineStatus = LineOk | LineFailed

  method IndexOfNewline(b: Bytes) returns (i: nat)
    ensures i <= |b| && OneLine(b[..i])
    ensures i < |b| ==> b[i] == NEWLINE
  {
    i := 0;
    while i < |b| && b[i] != NEWLINE
      invariant i <= |b| && OneLine(b[..i])
    {
      i := i + 1;
    }
  }

  /** bufio.Reader over the connection. */
  class LineReader {
    const r: Receiver
    var buf: Bytes
    var failed: bool

    constructor (r: Receiver)
      ensures this.r == r && buf == [] && !failed
    {
      this.r := r;
      buf := [];
      failed := false;
    }

    /** At most the header frame itself is left of the header on the stream, and then nothing of it has
        been decrypted yet. */
    ghost predicate Ready(head: seq<Bytes>, bodies: seq<Bytes>)
      reads this, r
    {
      && Transmits(r.cipher, r.Abs(), head + bodies)
      && |head| <= 1 && (head != [] ==> head[0] != [] && r.buf == [])
      && !failed && |buf| <= BUFIO_SIZE
    }

    /** The part of the header that no line has taken. */
    ghost function Unread(head: seq<Bytes>): Bytes
      reads this, r
    {
      buf + (r.buf + Concat(head))
    }

    /** One read into the free part of the buffer. */
    method Pull(ghost head: seq<Bytes>, ghost bodies: seq<Bytes>) returns (n: nat, ghost left: seq<Bytes>)
      requires |buf| < BUFIO_SIZE && !failed
      modifies this`buf, this`failed, r
      ensures |buf| <= BUFIO_SIZE && |buf| == |old(buf)| + n
      ensures if failed then r.buf == old(r.buf) && r.NoMore() else r.Less()
      ensures old(r.Ended()) ==> failed && n == 0 && buf == old(buf) && r.Ended()
      ensures old(Ready(head, bodies)) && (old(r.buf) != [] || head != []) ==>
        n > 0 && Ready(left, bodies) && Unread(left) == old(Unread(head))
    {
      var data, failure;
      ghost var frames;
      ghost var was := r.buf;
      data, failure, frames := r.ReadFrom(BUFIO_SIZE - |buf|, head + bodies);
      left := if was != [] then head else [];
      if old(Ready(head, bodies)) && (was != [] || head != []) {
        FillConserves(buf, was, head, data, r.buf, left);
        assert head != [] ==> (head + bodies)[1..] == bodies;
        assert [] + bodies == bodies;
      }
      buf := buf + data;
      n := |data|;
      failed := failure != NoFailure;
      assert data == [] ==> buf == old(buf);
    }

    method Fill(ghost head: seq<Bytes>, ghost bodies: seq<Bytes>) returns (ghost left: seq<Bytes>)
      requires |buf| < BUFIO_SIZE && !failed
      modifies this`buf, this`failed, r
      ensures |buf| <= BUFIO_SIZE
      ensures if failed then r.NoMore() else r.Less()
      ensures old(r.Ended()) ==> failed && buf == old(buf)
      ensures old(Ready(head, bodies)) && (old(r.buf) != [] || head != []) ==>
        Ready(left, bodies) && Unread(left) == old(Unread(head))
    {
      var n;
      n, left := Pull(head, bodies);
      var tries := MAX_EMPTY_READS - 1;
      while tries > 0 && n == 0 && !failed
        invariant |buf| == |old(buf)| + n <= BUFIO_SIZE
        invariant if failed then r.NoMore() else r.Less()
        invariant old(r.Ended()) ==> failed && buf == old(buf)
        invariant old(Ready(head, bodies)) && (old(r.buf) != [] || head != []) ==>
          n > 0 && Ready(left, bodies) && Unread(left) == old(Unread(head))
      {
        n, left := Pull(left, bodies);
        tries := tries - 1;
      }
      if n == 0 {
        failed := true;
      }
    }

    method ReadLine(ghost head: seq<Bytes>, ghost bodies: seq<Bytes>)
      returns (line: Bytes, st: LineStatus, ghost left: seq<Bytes>)
      requires |buf| <= BUFIO_SIZE
      modifies this`buf, this`failed, r
      ensures |buf| <= BUFIO_SIZE
      ensures st == LineOk ==> exists x :: OneLine(x) && line == Line(x)
      ensures old(buf) == [] && old(r.Ended()) ==> st == LineFailed
      ensures old(Ready(head, bodies)) && NEWLINE in old(Unread(head)) ==>
        st == LineOk && Ready(left, bodies) && line + Unread(left) == old(Unread(head))
    {
      ghost var good, text := Ready(head, bodies) && NEWLINE in Unread(head), Unread(head);
      var acc: Bytes := [];
      left := head;
      assert [] + text == text;
      while true
        invariant |buf| <= BUFIO_SIZE && OneLine(acc)
        invariant good ==> Ready(left, bodies) && acc + Unread(left) == text
        invariant old(buf) == [] && old(r.Ended()) ==> buf == [] && (failed || r.Ended())
        decreases |r.wire|, |r.buf|, if failed then 0 else 1, |buf|
      {
        var i := IndexOfNewline(buf);
        if i < |buf| {
          TakeLine(acc, buf, i, r.buf + Concat(left));
          line := acc + buf[..i + 1];
          buf := buf[i + 1..];
          return line, LineOk, left;
        }
        assert buf[..i] == buf;
        if failed {
          line := acc + buf;
          buf := [];
          failed := false;
          return line, LineFailed, left;
        }
        if |buf| >= BUFIO_SIZE {
          Associate(acc, buf, r.buf + Concat(left));
          assert [] + (r.buf + Concat(left)) == r.buf + Concat(left);
          acc := acc + buf;
          buf := [];
        } else {
          if good {
            MoreToCome(acc, buf, r.buf, left, text);
          }
          left := Fill(left, bodies);
        }
      }
    }

    /** ReadLine when the next line is known. */
    method ReadKnownLine(ghost head: seq<Bytes>, ghost bodies: seq<Bytes>, ghost x: Bytes, ghost rest: Bytes)
      returns (line: Bytes, st: LineStatus, ghost left: seq<Bytes>)
      requires |buf| <= BUFIO_SIZE
      modifies this`buf, this`failed, r
      ensures |buf| <= BUFIO_SIZE
      ensures old(buf) == [] && old(r.Ended()) ==> st == LineFailed
      ensures old(Ready(head, bodies)) && old(Unread(head)) == Line(x) + rest && OneLine(x) ==>
        st == LineOk && line == Line(x) && Trim(line) == Trim(x) && Ready(left, bodies) && Unread(left) == rest
    {
      ghost var known := Ready(head, bodies) && Unread(head) == Line(x) + rest && OneLine(x);
      assert known ==> Unread(head)[|x|] == NEWLINE;
      line, st, left := ReadLine(head, bodies);
      if known {
        LineTaken(line, Unread(left), x, rest);
        TrimLine(x);
      }
    }
  }

  lemma TakeLine(acc: Bytes, buf: Bytes, i: nat, after: Bytes)
    requires i < |buf| && buf[i] == NEWLINE && OneLine(acc) && OneLine(buf[..i])
    ensures acc + buf[..i + 1] == Line(acc + buf[..i]) && OneLine(acc + buf[..i])
    ensures acc + buf[..i + 1] + (buf[i + 1..] + after) == acc + (buf + after)
  {
  }

  /** The line break is still ahead, so the connection has something to give. */
  lemma MoreToCome(acc: Bytes, buf: Bytes, now: Bytes, left: seq<Bytes>, text: Bytes)
    requires OneLine(acc) && OneLine(buf) && NEWLINE in text && acc + (buf + (now + Concat(left))) == text
    ensures now != [] || left != []
  {
    assert now == [] && left == [] ==> text == acc + (buf + ([] + [])) == acc + buf;
  }

  lemma FillConserves(buf: Bytes, was: Bytes, head: seq<Bytes>, data: Bytes, now: Bytes, left: seq<Bytes>)
    requires |head| <= 1 && left == (if was != [] then head else [])
    requires data + now == (if was != [] then was else if head != [] then head[0] else [])
    ensures (buf + data) + (now + Concat(left)) == buf + (was + Concat(head))
  {
    assert head != [] ==> head[1..] == [];
    Associate(data, now, Concat(left));
    Associate(buf, data, now + Concat(left));
  }

  /** Nothing read yet; the first frame is four lines, and bodies come behind it. */
  ghost predicate Incoming(c: Cipher, s: Conn, l1: Bytes, l2: Bytes, l3: Bytes, l4: Bytes, bodies: seq<Bytes>) {
    && Transmits(c, s, [FourLines(l1, l2, l3, l4)] + bodies) && s.buf == []
    && OneLine(l1) && OneLine(l2) && OneLine(l3) && OneLine(l4)
  }

  /** ReadHeader. For a first frame of four lines it is ParseLines of them, and on success the stream
      stands at the first body frame: the buffered reader took nothing beyond the header. */
  method ReadHeader(r: Receiver, ghost a: Bytes, ghost b: Bytes, ghost c: Bytes, ghost d: Bytes, ghost bodies: seq<Bytes>)
    returns (h: HeaderResult)
    modifies r
    ensures Incoming(r.cipher, old(r.Abs()), a, b, c, d, bodies) ==>
      h == ParseLines(a, b, c, d) && (h.Header? ==> Transmits(r.cipher, r.Abs(), bodies) && r.buf == [])
    ensures Incoming(r.cipher, old(r.Abs()), a, b, c, d, bodies) ==> Judged(a, b, c, d, h)
    ensures old(r.Ended()) ==> h == ReadFailed
  {
    LinesAreJudged(a, b, c, d);
    ghost var text := FourLines(a, b, c, d);
    ghost var good := Incoming(r.cipher, r.Abs(), a, b, c, d, bodies);
    var br := new LineReader(r);
    ghost var head := [text];
    assert head[1..] == [] && Concat(head) == text + [] == text;
    assert good ==> br.Ready(head, bodies) && br.Unread(head) == text;
    assert Line(d) + [] == Line(d);

    var line, st, head1 := br.ReadKnownLine(head, bodies, a, Line(b) + (Line(c) + Line(d)));
    if st != LineOk {
      return ReadFailed;
    }
    if Trim(line) != Magic() {
      return UnknownProtocol;
    }
    var idLine;
    ghost var head2;
    idLine, st, head2 := br.ReadKnownLine(head1, bodies, b, Line(c) + Line(d));
    if st != LineOk {
      return ReadFailed;
    }
    var sizeLine;
    ghost var head3;
    sizeLine, st, head3 := br.ReadKnownLine(head2, bodies, c, Line(d));
    if st != LineOk {
      return ReadFailed;
    }
    var size := ParseInt(Trim(sizeLine));
    if size.None? || size.value < 0 {
      return BadSize;
    }
    var nameLine;
    ghost var head4;
    nameLine, st, head4 := br.ReadKnownLine(head3, bodies, d, []);
    if st != LineOk {
      return ReadFailed;
    }
    if good {
      NothingUnread(br, head4, bodies);
    }
    var name := Trim(nameLine);
    if |name| == 0 || |name| > MAX_NAME {
      return BadName;
    }
    return Header(Trim(idLine), name, size.value);
  }

  lemma LineTaken(line: Bytes, rest: Bytes, a: Bytes, b: Bytes)
    requires exists x :: OneLine(x) && line == Line(x)
    requires OneLine(a) && line + rest == Line(a) + b
    ensures line == Line(a) && rest == b
  {
    var x :| OneLine(x) && line == Line(x);
    FirstLine(x, rest, a, b);
  }

  lemma NonEmptyFirst(parts: seq<Bytes>)
    ensures Concat(parts) == [] && parts != [] ==> parts[0] == []
  {
  }

  lemma NothingUnread(br: LineReader, head: seq<Bytes>, bodies: seq<Bytes>)
    requires br.Ready(head, bodies) && br.Unread(head) == []
    ensures br.r.buf == [] && Transmits(br.r.cipher, br.r.Abs(), bodies)
  {
    assert |br.r.buf + Concat(head)| == 0;
    NonEmptyFirst(head);
    assert [] + bodies == bodies;
  }

  // ---- saving ----

  /** A reader that ends as io.Reader says it should: with the bare io.EOF. */
  class BytesReader {
    var rest: Bytes

    constructor (data: Bytes)
      ensures rest == data
    {
      rest := data;
    }

    method Read(k: nat) returns (data: Bytes, failure: Failure)
      requires k > 0
      modifies this
      ensures data + rest == old(rest)
      ensures if old(rest) == [] then failure == BareEof && data == [] else failure == NoFailure && data != []
    {
      if rest == [] {
        return [], BareEof;
      }
      var n := Min(k, |rest|);
      data := rest[..n];
      rest := rest[n..];
      failure := NoFailure;
    }
  }

  /** The readers SaveFile can be given. */
  datatype Source = Plain(reader: BytesReader) | Encrypted(conn: Receiver)

  function ObjectOf(src: Source): object {
    if src.Plain? then src.reader else src.conn
  }

  method ReadSource(src: Source, k: nat, ghost frames: seq<Bytes>)
    returns (data: Bytes, failure: Failure, ghost left: seq<Bytes>)
    requires k > 0
    modifies ObjectOf(src)
    ensures src.Plain? ==>
      && data + src.reader.rest == old(src.reader.rest)
      && if old(src.reader.rest) == [] then failure == BareEof else failure == NoFailure && data != []
    ensures src.Encrypted? ==> failure != BareEof && (failure == NoFailure ==> src.conn.Less())
    ensures src.Encrypted? && old(Transmits(src.conn.cipher, src.conn.Abs(), frames)) ==>
      && Transmits(src.conn.cipher, src.conn.Abs(), left)
      && data + Pending(src.conn.Abs(), left) == Pending(old(src.conn.Abs()), frames)
      && (failure != NoFailure ==> failure == WrappedEof && Pending(src.conn.Abs(), left) == [])
  {
    match src
    case Plain(reader) =>
      data, failure := reader.Read(k);
      left := frames;
    case Encrypted(conn) =>
      data, failure, left := conn.ReadFrom(k, frames);
  }

  datatype SaveResult = Saved | SizeMismatch | Failed(why: Failure)

  /** SaveFile: the copy loop, and the check of the size behind it. A reader that ends with io.EOF is
      saved whole, and successfully if the size is right. Over an EncryptedConn the loop's break and what
      comes after it are never reached: the end arrives wrapped, after every byte has been saved. */
  method SaveFile(src: Source, expected: int, ghost bodies: seq<Bytes>)
    returns (file: Bytes, total: nat, result: SaveResult)
    modifies ObjectOf(src)
    ensures total == |file|
    ensures src.Plain? ==>
      file == old(src.reader.rest) && result == if expected > 0 && |file| != expected then SizeMismatch else Saved
    ensures src.Encrypted? ==> result.Failed? && result.why != BareEof
    ensures src.Encrypted? && old(Transmits(src.conn.cipher, src.conn.Abs(), bodies)) ==>
      file == Pending(old(src.conn.Abs()), bodies) && result == Failed(WrappedEof)
  {
    file := [];
    total := 0;
    ghost var frames := bodies;
    ghost var good := src.Encrypted? && Transmits(src.conn.cipher, src.conn.Abs(), bodies);
    ghost var all := if src.Plain? then src.reader.rest else Pending(src.conn.Abs(), bodies);
    assert [] + all == all;
    while true
      invariant total == |file|
      invariant src.Plain? ==> file + src.reader.rest == all
      invariant good ==>
        Transmits(src.conn.cipher, src.conn.Abs(), frames) && file + Pending(src.conn.Abs(), frames) == all
      decreases if src.Plain? then |src.reader.rest| else |src.conn.wire|, if src.Plain? then 0 else |src.conn.buf|
    {
      var data, failure;
      ghost var left;
      ghost var after: Bytes;
      data, failure, left := ReadSource(src, COPY_BUFFER, frames);
      after := if src.Plain? then src.reader.rest else Pending(src.conn.Abs(), left);
      Associate(file, data, after);
      frames := left;
      assert data == [] ==> file + data == file;
      if |data| > 0 {
        file := file + data;
        total := total + |data|;
      }
      if failure == BareEof {
        break;
      }
      if failure != NoFailure {
        return file, total, Failed(failure);
      }
    }
    if expected > 0 && total != expected {
      return file, total, SizeMismatch;
    }
    return file, total, Saved;
  }

  // ---- end to end ----

  /** Encryption adds a tag of this many bytes. */
  const TAG := 16

  ghost predicate AddsTag(c: Cipher) {
    forall n: nat, p: Bytes :: |c.enc(n, p)| == |p| + TAG
  }

  /** A file sent is the file saved, and the header's fields arrive trimmed. */
  method SendAndReceive(c: Cipher, id: Bytes, name: Bytes, file: Bytes)
    returns (h: HeaderResult, saved: Bytes)
    requires Inverts(c) && AddsTag(c)
    requires OneLine(id) && OneLine(name) && CARRIAGE_RETURN !in name
    requires |file| <= MAX_INT64 && |HeaderText(id, |file|, name)| + TAG <= MAX_FRAME
    ensures h == if 0 < |Trim(name)| <= MAX_NAME then Header(Trim(id), Trim(name), |file|) else BadName
    ensures h.Header? ==> saved == file
  {
    var s := new Sender(c);
    var ok := SendHeader(s, id, name, |file|);
    ghost var text := HeaderText(id, |file|, name);
    var total, stopped, bodies := StreamFile(s, file, _ => false);
    assert s.written == [text] + bodies;
    var r := new Receiver(c, s.out);
    assert FramesFit(c, 0, [text] + bodies);
    MagicIsClean();
    SizeIsClean(|file|);
    ParseOfHeader(id, |file|, name);
    h := ReadHeader(r, Magic(), id, Itoa(|file|), name, bodies);
    saved := [];
    if h.Header? {
      var n, result;
      saved, n, result := SaveFile(Encrypted(r), |file|, bodies);
      assert file[..|file|] == file;
    }
  }

  /** What of the sender's frames lies whole before the cut: nothing, or the header and some bodies. */
  ghost function Arrived(c: Cipher, frames: seq<Bytes>, cut: nat): seq<Bytes> {
    frames[..WholeFrames(c, 0, frames, cut)]
  }

  lemma ArrivedIsHeld(c: Cipher, frames: seq<Bytes>, cut: nat)
    requires Inverts(c) && FramesFit(c, 0, frames) && cut <= |WireOf(c, 0, frames)|
    ensures Transmits(c, Conn(WireOf(c, 0, frames)[..cut], [], 0), Arrived(c, frames, cut))
  {
    var w := WireOf(c, 0, Arrived(c, frames, cut));
    CutWireHolds(c, 0, frames, cut);
    assert WireOf(c, 0, frames)[..cut][..|w|] == w && WireOf(c, 0, frames)[..cut][|w|..] == WireOf(c, 0, frames)[|w|..cut];
  }

  lemma ConcatPrefix(parts: seq<Bytes>, k: nat)
    requires k <= |parts|
    ensures Concat(parts[..k]) <= Concat(parts)
  {
    assert parts == parts[..k] + parts[k..];
    ConcatAppend(parts[..k], parts[k..]);
  }

  method SendPart(c: Cipher, id: Bytes, name: Bytes, file: Bytes, cancelled: nat -> bool) returns (out: Bytes, ghost bodies: seq<Bytes>)
    requires Inverts(c) && AddsTag(c) && OneLine(name) && CARRIAGE_RETURN !in name
    requires |HeaderText(id, |file|, name)| + TAG <= MAX_FRAME
    ensures var frames := [HeaderText(id, |file|, name)] + bodies; out == WireOf(c, 0, frames) && FramesFit(c, 0, frames)
    ensures Concat(bodies) <= file && ((forall n :: !cancelled(n)) ==> Concat(bodies) == file)
  {
    var s := new Sender(c);
    var ok := SendHeader(s, id, name, |file|);
    var total, stopped;
    total, stopped, bodies := StreamFile(s, file, cancelled);
    out := s.out;
    assert s.written == [HeaderText(id, |file|, name)] + bodies;
    assert file[..|file|] == file;
  }

  lemma FirstAndRest<T>(s: seq<T>)
    requires s != []
    ensures s == [s[0]] + s[1..]
  {
  }

  lemma RestOfFirst<T>(x: T, s: seq<T>, m: nat)
    requires 0 < m <= |s| + 1
    ensures ([x] + s)[..m][0] == x && ([x] + s)[..m][1..] == s[..m - 1]
  {
  }

  lemma HeaderComes(c: Cipher, s: Conn, id: Bytes, name: Bytes, size: nat, arrived: seq<Bytes>)
    requires Transmits(c, s, arrived) && s.buf == [] && OneLine(id) && OneLine(name)
    requires arrived != [] && arrived[0] == HeaderText(id, size, name)
    ensures Incoming(c, s, Magic(), id, Itoa(size), name, arrived[1..])
  {
    MagicIsClean();
    SizeIsClean(size);
    FirstAndRest(arrived);
  }

  /** What the receiver makes of the frames that arrived whole: a header and some bodies, or nothing. */
  ghost predicate SavedFrom(id: Bytes, name: Bytes, size: int, arrived: seq<Bytes>, h: HeaderResult, saved: Bytes, result: SaveResult) {
    if arrived == [] then h == ReadFailed && saved == []
    else
      && h == (if 0 < |Trim(name)| <= MAX_NAME then Header(Trim(id), Trim(name), size) else BadName)
      && (h.Header? ==> saved == Concat(arrived[1..]) && result == Failed(WrappedEof))
  }

  method ReceivePart(c: Cipher, wire: Bytes, ghost id: Bytes, ghost name: Bytes, size: nat, ghost arrived: seq<Bytes>)
    returns (h: HeaderResult, saved: Bytes, result: SaveResult)
    requires Transmits(c, Conn(wire, [], 0), arrived) && OneLine(id) && OneLine(name) && size <= MAX_INT64
    requires arrived != [] ==> arrived[0] == HeaderText(id, size, name)
    ensures SavedFrom(id, name, size, arrived, h, saved, result)
  {
    var r := new Receiver(c, wire);
    ParseOfHeader(id, size, name);
    ghost var rest := if arrived == [] then [] else arrived[1..];
    if arrived != [] {
      HeaderComes(c, Conn(wire, [], 0), id, name, size, arrived);
    }
    h := ReadHeader(r, Magic(), id, Itoa(size), name, rest);
    saved, result := [], Failed(WrappedEof);
    if h.Header? {
      var n;
      saved, n, result := SaveFile(Encrypted(r), size, rest);
    }
  }

  /** The connection breaks after `cut` bytes, and the sender may be cancelled at any turn. If the header did
      not arrive whole, nothing is saved. Otherwise the file saved is the body of the whole frames before the
      cut, which is a prefix of the file, and the receiver knows that the end was not a proper one. */
  method SendAndLose(c: Cipher, id: Bytes, name: Bytes, file: Bytes, cancelled: nat -> bool, cut: nat)
    returns (h: HeaderResult, saved: Bytes, result: SaveResult, ghost bodies: seq<Bytes>)
    requires Inverts(c) && AddsTag(c)
    requires OneLine(id) && OneLine(name) && CARRIAGE_RETURN !in name
    requires |file| <= MAX_INT64 && |HeaderText(id, |file|, name)| + TAG <= MAX_FRAME
    ensures Concat(bodies) <= file && ((forall n :: !cancelled(n)) ==> Concat(bodies) == file)
    ensures SavedFrom(id, name, |file|, Arrived(c, [HeaderText(id, |file|, name)] + bodies, cut), h, saved, result)
    ensures h.Header? ==> saved <= file
  {
    var out;
    out, bodies := SendPart(c, id, name, file, cancelled);
    ghost var arrived := Arrived(c, [HeaderText(id, |file|, name)] + bodies, cut);
    ArrivedParts(c, HeaderText(id, |file|, name), bodies, file, cut);
    h, saved, result := ReceivePart(c, out[..Min(cut, |out|)], id, name, |file|, arrived);
  }

  lemma ArrivedParts(c: Cipher, first: Bytes, bodies: seq<Bytes>, file: Bytes, cut: nat)
    requires Inverts(c) && FramesFit(c, 0, [first] + bodies) && Concat(bodies) <= file
    ensures var wire, arrived := WireOf(c, 0, [first] + bodies), Arrived(c, [first] + bodies, cut);
            && Transmits(c, Conn(wire[..Min(cut, |wire|)], [], 0), arrived)
            && (arrived != [] ==> arrived[0] == first && Concat(arrived[1..]) <= file)
  {
    var frames := [first] + bodies;
    WholeFramesCut(c, 0, frames, cut);
    ArrivedIsHeld(c, frames, Min(cut, |WireOf(c, 0, frames)|));
    var m := |Arrived(c, frames, cut)|;
    if m > 0 {
      RestOfFirst(first, bodies, m);
      ConcatPrefix(bodies, m - 1);
    }
  }

  /** A cut behind the end of the wire is a cut at its end. */
  lemma {:induction false} WholeFramesCut(c: Cipher, n: nat, frames: seq<Bytes>, cut: nat)
    ensures WholeFrames(c, n, frames, cut) == WholeFrames(c, n, frames, Min(cut, |WireOf(c, n, frames)|))
    decreases |frames|
  {
    if frames != [] && cut >= |FrameOf(c, n, frames[0])| {
      WholeFramesCut(c, n + 1, frames[1..], cut - |FrameOf(c, n, frames[0])|);
    }
  }
}
