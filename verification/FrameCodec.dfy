/** The 16-byte frame header and the payload behind it, as bytes on a reliable stream. */
module FrameCodec {
  import opened Bytes
  import opened MuxState

  /** The checksum of a payload; nothing is assumed about it. */
  type Checksum = Bytes -> uint32

  const HEADER_LEN := 16

  datatype DecodeResult =
    | Decoded(f: Frame, rest: Bytes)
    | ShortHeader
    | ReservedNonzero
    | PayloadTooLarge
    | ShortPayload
    | CrcMismatch

  function Header(crc: Checksum, f: Frame): (h: Bytes)
    requires |f.payload| <= MAX_PAYLOAD
    ensures |h| == HEADER_LEN
  {
    PutUint32(f.sid) + [f.ftype, 0, 0] + PutUint32(|f.payload|) + PutUint32(crc(f.payload)) + [0]
  }

  function Encoding(crc: Checksum, f: Frame): Bytes
    requires |f.payload| <= MAX_PAYLOAD
  {
    Header(crc, f) + f.payload
  }

  function Decode(crc: Checksum, b: Bytes): DecodeResult {
    if |b| < HEADER_LEN then ShortHeader
    else if b[5] != 0 || b[6] != 0 then ReservedNonzero
    else
      var len := Uint32(b[7..11]);
      if len > MAX_PAYLOAD then PayloadTooLarge
      else if |b| < HEADER_LEN + len then ShortPayload
      else
        var payload := b[HEADER_LEN..HEADER_LEN + len];
        if len > 0 && crc(payload) != Uint32(b[11..15]) then CrcMismatch
        else Decoded(Frame(Uint32(b[0..4]), b[4], payload), b[HEADER_LEN + len..])
  }

  ghost function EncodeAll(crc: Checksum, fs: seq<Frame>): Bytes
    requires forall i :: 0 <= i < |fs| ==> |fs[i].payload| <= MAX_PAYLOAD
  {
    if fs == [] then [] else Encoding(crc, fs[0]) + EncodeAll(crc, fs[1..])
  }

  datatype Batch =
    | Batch(fs: seq<Frame>, left: Bytes)
    | Stopped(fs: seq<Frame>, why: DecodeResult)  // the frames before the failure

  /** Up to n turns of the read loop. */
  ghost function DecodeMany(crc: Checksum, b: Bytes, n: nat): Batch {
    if n == 0 then Batch([], b)
    else
      match Decode(crc, b)
      case Decoded(f, rest) =>
        (match DecodeMany(crc, rest, n - 1)
         case Batch(fs, left) => Batch([f] + fs, left)
         case Stopped(fs, why) => Stopped([f] + fs, why))
      case why => Stopped([], why)
  }

  // ---- round trips ----

  lemma FieldsAt(crc: Checksum, f: Frame, rest: Bytes)
    requires |f.payload| <= MAX_PAYLOAD
    ensures var b := Encoding(crc, f) + rest;
            && b[0..4] == PutUint32(f.sid) && b[4] == f.ftype && b[5] == b[6] == 0
            && b[7..11] == PutUint32(|f.payload|) && b[11..15] == PutUint32(crc(f.payload)) && b[15] == 0
            && b[HEADER_LEN..HEADER_LEN + |f.payload|] == f.payload
            && b[HEADER_LEN + |f.payload|..] == rest
  {
    var b := Encoding(crc, f) + rest;
    assert b[..HEADER_LEN] == Header(crc, f);
    var h := Header(crc, f);
    assert h[0..4] == PutUint32(f.sid) && h[7..11] == PutUint32(|f.payload|) && h[11..15] == PutUint32(crc(f.payload));
    assert b[0..4] == h[0..4] && b[7..11] == h[7..11] && b[11..15] == h[11..15];
  }

  lemma DecodeEncoding(crc: Checksum, f: Frame, rest: Bytes)
    requires |f.payload| <= MAX_PAYLOAD
    ensures Decode(crc, Encoding(crc, f) + rest) == Decoded(f, rest)
  {
    FieldsAt(crc, f, rest);
    Uint32RoundTrip(f.sid);
    Uint32RoundTrip(|f.payload|);
    Uint32RoundTrip(crc(f.payload));
  }

  /** A cut-off encoding never decodes. */
  lemma ProperPrefixFails(crc: Checksum, f: Frame, k: nat)
    requires |f.payload| <= MAX_PAYLOAD && k < |Encoding(crc, f)|
    ensures Decode(crc, Encoding(crc, f)[..k]) == if k < HEADER_LEN then ShortHeader else ShortPayload
  {
    var b := Encoding(crc, f)[..k];
    if k >= HEADER_LEN {
      FieldsAt(crc, f, []);
      assert Encoding(crc, f) + [] == Encoding(crc, f);
      assert b[7..11] == Encoding(crc, f)[7..11];
      Uint32RoundTrip(|f.payload|);
    }
  }

  lemma DecodeManyStep(crc: Checksum, f: Frame, more: Bytes, n: nat)
    requires |f.payload| <= MAX_PAYLOAD
    ensures DecodeMany(crc, Encoding(crc, f) + more, n + 1) == match DecodeMany(crc, more, n)
      case Batch(fs, left) => Batch([f] + fs, left)
      case Stopped(fs, why) => Stopped([f] + fs, why)
  {
    DecodeEncoding(crc, f, more);
  }

  lemma EncodeAllSplit(crc: Checksum, fs: seq<Frame>, rest: Bytes)
    requires fs != [] && forall i :: 0 <= i < |fs| ==> |fs[i].payload| <= MAX_PAYLOAD
    ensures EncodeAll(crc, fs) + rest == Encoding(crc, fs[0]) + (EncodeAll(crc, fs[1..]) + rest)
    ensures fs == [fs[0]] + fs[1..]
  {
    Associate(Encoding(crc, fs[0]), EncodeAll(crc, fs[1..]), rest);
  }

  /** Reading a stream of encodings gives the same frames back, and leaves what follows them. */
  lemma {:induction false} DecodeManyEncodings(crc: Checksum, fs: seq<Frame>, rest: Bytes)
    requires forall i :: 0 <= i < |fs| ==> |fs[i].payload| <= MAX_PAYLOAD
    ensures DecodeMany(crc, EncodeAll(crc, fs) + rest, |fs|) == Batch(fs, rest)
  {
    if fs == [] {
      assert [] + rest == rest;
    } else {
      DecodeManyEncodings(crc, fs[1..], rest);
      DecodeManyStep(crc, fs[0], EncodeAll(crc, fs[1..]) + rest, |fs| - 1);
      EncodeAllSplit(crc, fs, rest);
    }
  }

  lemma {:induction false} EncodeAllAppend(crc: Checksum, a: seq<Frame>, b: seq<Frame>)
    requires forall i :: 0 <= i < |a| ==> |a[i].payload| <= MAX_PAYLOAD
    requires forall i :: 0 <= i < |b| ==> |b[i].payload| <= MAX_PAYLOAD
    ensures EncodeAll(crc, a + b) == EncodeAll(crc, a) + EncodeAll(crc, b)
    decreases |a|
  {
    if a == [] {
      assert a + b == b;
    } else {
      assert (a + b)[0] == a[0] && (a + b)[1..] == a[1..] + b;
      EncodeAllAppend(crc, a[1..], b);
      Associate(Encoding(crc, a[0]), EncodeAll(crc, a[1..]), EncodeAll(crc, b));
    }
  }

  /** A wire cut anywhere inside its last frame yields exactly the whole frames before the cut. */
  lemma {:induction false} CutWireKeepsWholeFrames(crc: Checksum, fs: seq<Frame>, f: Frame, k: nat)
    requires forall i :: 0 <= i < |fs| ==> |fs[i].payload| <= MAX_PAYLOAD
    requires |f.payload| <= MAX_PAYLOAD && k < |Encoding(crc, f)|
    ensures var d := DecodeMany(crc, EncodeAll(crc, fs) + Encoding(crc, f)[..k], |fs| + 1);
            d.Stopped? && d.fs == fs && (d.why.ShortHeader? || d.why.ShortPayload?)
  {
    var cut := Encoding(crc, f)[..k];
    if fs == [] {
      assert [] + cut == cut;
      ProperPrefixFails(crc, f, k);
    } else {
      CutWireKeepsWholeFrames(crc, fs[1..], f, k);
      DecodeManyStep(crc, fs[0], EncodeAll(crc, fs[1..]) + cut, |fs|);
      EncodeAllSplit(crc, fs, cut);
    }
  }

  lemma LastByte(q: nat, z: byte)
    ensures (q * 0x100 + z) / 0x100 == q && (q * 0x100 + z) % 0x100 == z
  {
  }

  lemma ByteByByte(v: nat)
    ensures v / 0x1_0000 == v / 0x100 / 0x100 && v / 0x100_0000 == v / 0x100 / 0x100 / 0x100
  {
  }

  lemma PutUint32Inverse(b: Bytes)
    requires |b| == 4
    ensures PutUint32(Uint32(b)) == b
  {
    var w: int, x: int, y: int := b[0], b[1], b[2];
    var v := Uint32(b);
    LastByte((w * 0x100 + x) * 0x100 + y, b[3]);
    LastByte(w * 0x100 + x, b[2]);
    LastByte(w, b[1]);
    ByteByByte(v);
    assert v == ((w * 0x100 + x) * 0x100 + y) * 0x100 + b[3];
  }

  /** Decoding accepts more than encoding produces, in two places only: the last header byte is not
      looked at, and the checksum of an empty payload is not checked. */
  lemma CanonicalIff(crc: Checksum, b: Bytes)
    requires Decode(crc, b).Decoded?
    ensures var d := Decode(crc, b);
            Encoding(crc, d.f) + d.rest == b
            <==> b[15] == 0 && (d.f.payload == [] ==> Uint32(b[11..15]) == crc([]))
  {
    var d := Decode(crc, b);
    var e := Encoding(crc, d.f) + d.rest;
    FieldsAt(crc, d.f, d.rest);
    PutUint32Inverse(b[0..4]);
    PutUint32Inverse(b[7..11]);
    PutUint32Inverse(b[11..15]);
    Uint32RoundTrip(crc(d.f.payload));
    assert e[0..4] == b[0..4] && e[7..11] == b[7..11];
    if b[15] == 0 && (d.f.payload == [] ==> Uint32(b[11..15]) == crc([])) {
      assert e[11..15] == b[11..15];
      Pieces(b, |d.f.payload|);
      Pieces(e, |d.f.payload|);
    }
  }

  /** A header with its last byte set decodes to the frame, and is not what the frame encodes to. */
  lemma ReservedByteIsIgnored(crc: Checksum, f: Frame)
    requires |f.payload| <= MAX_PAYLOAD
    ensures |Encoding(crc, f)| >= HEADER_LEN
    ensures var b := Encoding(crc, f)[15 := 1];
            Decode(crc, b) == Decoded(f, []) && Encoding(crc, f) + [] != b
  {
    var e := Encoding(crc, f);
    var b := e[15 := 1];
    FieldsAt(crc, f, []);
    assert e + [] == e;
    DecodeEncoding(crc, f, []);
    assert b[0..4] == e[0..4] && b[7..11] == e[7..11] && b[11..15] == e[11..15] && b[HEADER_LEN..] == e[HEADER_LEN..];
    assert b[HEADER_LEN..HEADER_LEN + |f.payload|] == e[HEADER_LEN..HEADER_LEN + |f.payload|];
    assert b[15] != e[15];
  }

  lemma Pieces(b: Bytes, n: nat)
    requires |b| >= HEADER_LEN + n
    ensures b == b[0..4] + [b[4], b[5], b[6]] + b[7..11] + b[11..15] + [b[15]]
                 + b[HEADER_LEN..HEADER_LEN + n] + b[HEADER_LEN + n..]
  {
  }

  // ---- the code: a header array filled in place, and a stream read into buffers ----

  function Overwrite(s: Bytes, at: nat, bs: Bytes): (r: Bytes)
    requires at + |bs| <= |s|
    ensures |r| == |s|
    ensures forall i :: 0 <= i < |s| ==> r[i] == if at <= i < at + |bs| then bs[i - at] else s[i]
  {
    s[..at] + bs + s[at + |bs|..]
  }

  method PutAt(h: array<byte>, at: nat, v: uint32)
    requires at + 4 <= h.Length
    modifies h
    ensures h[..] == Overwrite(old(h[..]), at, PutUint32(v))
  {
    h[at] := v / 0x100_0000;
    h[at + 1] := v / 0x1_0000 % 256;
    h[at + 2] := v / 0x100 % 256;
    h[at + 3] := v % 256;
  }

  lemma HeaderShape(zeros: Bytes, a: Bytes, t: byte, b: Bytes, c: Bytes)
    requires |zeros| == HEADER_LEN && |a| == |b| == |c| == 4 && forall i :: 0 <= i < |zeros| ==> zeros[i] == 0
    ensures Overwrite(Overwrite(Overwrite(zeros, 0, a)[4 := t], 7, b), 11, c) == a + [t, 0, 0] + b + c + [0]
  {
    var x, y := Overwrite(Overwrite(Overwrite(zeros, 0, a)[4 := t], 7, b), 11, c), a + [t, 0, 0] + b + c + [0];
    forall i | 0 <= i < HEADER_LEN ensures x[i] == y[i] {}
  }

  method MakeHeader(crc: Checksum, f: Frame) returns (h: array<byte>)
    requires |f.payload| <= MAX_PAYLOAD
    ensures fresh(h) && h[..] == Header(crc, f)
  {
    h := new byte[HEADER_LEN](_ => 0);
    ghost var zeros := h[..];
    PutAt(h, 0, f.sid);
    h[4] := f.ftype;
    PutAt(h, 7, |f.payload|);
    PutAt(h, 11, crc(f.payload));
    HeaderShape(zeros, PutUint32(f.sid), f.ftype, PutUint32(|f.payload|), PutUint32(crc(f.payload)));
  }

  class Wire {
    var bytes: Bytes

    constructor ()
      ensures bytes == []
    {
      bytes := [];
    }

    method Write(b: Bytes)
      modifies this
      ensures bytes == old(bytes) + b
    {
      bytes := bytes + b;
    }

    /** io.ReadFull: all n bytes, or failure with the stream used up. */
    method ReadFull(n: nat) returns (b: Bytes, ok: bool)
      modifies this
      ensures ok <==> n <= |old(bytes)|
      ensures ok ==> b == old(bytes[..n]) && bytes == old(bytes[n..])
      ensures !ok ==> bytes == []
    {
      if n > |bytes| {
        b := bytes;
        bytes := [];
        return b, false;
      }
      b := bytes[..n];
      bytes := bytes[n..];
      return b, true;
    }
  }

  method EncodeFrame(w: Wire, crc: Checksum, f: Frame) returns (ok: bool)
    modifies w
    ensures ok <==> |f.payload| <= MAX_PAYLOAD
    ensures w.bytes == old(w.bytes) + if ok then Encoding(crc, f) else []
  {
    if |f.payload| > MAX_PAYLOAD {
      return false;
    }
    var header := MakeHeader(crc, f);
    w.Write(header[..]);
    if |f.payload| > 0 {
      w.Write(f.payload);
    }
    assert w.bytes == old(w.bytes) + (Header(crc, f) + f.payload);
    return true;
  }

  method DecodeFrame(r: Wire, crc: Checksum) returns (d: DecodeResult)
    modifies r
    ensures d == Decode(crc, old(r.bytes))
    ensures d.Decoded? ==> r.bytes == d.rest
  {
    ghost var b := r.bytes;
    var header, ok := r.ReadFull(HEADER_LEN);
    if !ok {
      return ShortHeader;
    }
    if header[5] != 0 || header[6] != 0 {
      return ReservedNonzero;
    }
    assert header[7..11] == b[7..11] && header[11..15] == b[11..15] && header[0..4] == b[0..4];
    var len := Uint32(header[7..11]);
    var want := Uint32(header[11..15]);
    if len > MAX_PAYLOAD {
      return PayloadTooLarge;
    }
    var payload: Bytes := [];
    if len > 0 {
      payload, ok := r.ReadFull(len);
      if !ok {
        return ShortPayload;
      }
      assert payload == b[HEADER_LEN..HEADER_LEN + len];
      if crc(payload) != want {
        return CrcMismatch;
      }
    }
    assert r.bytes == b[HEADER_LEN + len..];
    return Decoded(Frame(Uint32(header[0..4]), header[4], payload), r.bytes);
  }
}
