/** The lanos://connect URI that a peer shows as a QR code. */
module ConnectUri {
  import opened Bytes
  import opened Text
  import opened Parts
  import opened Percent
  import AddrText
  import Address

  const AMPERSAND: byte := 38
  const SEMICOLON: byte := 59

  datatype Param = Ip | Ip6 | Port | PkHash | DeviceName

  datatype ConnectURI = ConnectURI(ip: Bytes, ip6: Bytes, port: int, pkHash: Bytes, deviceName: Bytes, raw: Bytes)

  datatype Error =
    | MissingScheme | UnexpectedPath | BadQuery | UnknownParameter | Duplicate(p: Param) | Empty(p: Param)
    | Invalid(p: Param) | ZoneRequired | NoAddress | Required(p: Param)

  datatype Result<+T> = Ok(value: T) | Err(error: Error)

  type Parser = Bytes -> Option<Address.Ip>

  function ParamText(p: Param): (t: Bytes)
    ensures t != [] && EQUALS !in t && SEMICOLON !in t && AMPERSAND !in t && PERCENT !in t && PLUS !in t
  {
    match p
    case Ip => Ascii("ip")
    case Ip6 => Ascii("ip6")
    case Port => Ascii("port")
    case PkHash => Ascii("pk-hash")
    case DeviceName => Ascii("device-name")
  }

  function ParamOf(t: Bytes): Option<Param> {
    if t == ParamText(Ip) then Some(Ip)
    else if t == ParamText(Ip6) then Some(Ip6)
    else if t == ParamText(Port) then Some(Port)
    else if t == ParamText(PkHash) then Some(PkHash)
    else if t == ParamText(DeviceName) then Some(DeviceName)
    else None
  }

  lemma ParamOfText(p: Param)
    ensures ParamOf(ParamText(p)) == Some(p)
  {
  }

  // ---- the query ----

  datatype Segment = Skip | Bad | Good(key: Bytes, val: Bytes)

  function ReadSegment(seg: Bytes): Segment {
    if SEMICOLON in seg then Bad
    else if seg == [] then Skip
    else
      var eq := IndexByte(seg, EQUALS);
      var key := QueryUnescape(if eq < 0 then seg else seg[..eq]);
      var val := QueryUnescape(if eq < 0 then [] else seg[eq + 1..]);
      if key.None? || val.None? then Bad else Good(key.value, val.value)
  }

  datatype Field = Field(param: Param, val: Bytes)

  /** url.ParseQuery, and then the test for unknown parameters. */
  function ReadQuery(segs: seq<Bytes>): Result<seq<Field>>
    decreases |segs|
  {
    if segs == [] then Ok([])
    else
      var rest := ReadQuery(segs[1..]);
      match ReadSegment(segs[0])
      case Skip => rest
      case Bad => Err(BadQuery)
      case Good(key, val) =>
        if rest.Err? && rest.error == BadQuery then rest
        else if ParamOf(key).None? then Err(UnknownParameter)
        else if rest.Err? then rest
        else Ok([Field(ParamOf(key).value, val)] + rest.value)
  }

  function Values(fs: seq<Field>, p: Param): seq<Bytes> {
    if fs == [] then [] else (if fs[0].param == p then [fs[0].val] else []) + Values(fs[1..], p)
  }

  /** The only value of a parameter; None if there is none. */
  function Single(fs: seq<Field>, p: Param): Result<Option<Bytes>> {
    var vs := Values(fs, p);
    if |vs| > 1 then Err(Duplicate(p)) else if vs == [] then Ok(None) else Ok(Some(vs[0]))
  }

  // ---- the parameters ----

  predicate IsV4(parse: Parser, v: Bytes) {
    parse(v).Some? && Address.To4(parse(v).value).Some?
  }

  predicate IsV6(parse: Parser, v: Bytes) {
    parse(v).Some? && Address.To4(parse(v).value).None?
  }

  predicate NeedsZone(parse: Parser, v: Bytes) {
    && IsV6(parse, v)
    && (Address.IsLinkLocalUnicast(parse(v).value) || Address.IsLinkLocalMulticast(parse(v).value))
  }

  function CheckIp(parse: Parser, v: Bytes): Result<Bytes> {
    if v == [] then Err(Empty(Ip)) else if !IsV4(parse, v) then Err(Invalid(Ip)) else Ok(v)
  }

  function CheckIp6(parse: Parser, v: Bytes): Result<Bytes> {
    if v == [] then Err(Empty(Ip6))
    else
      var (ip, zone) := AddrText.SplitZone(v);
      if !IsV6(parse, ip) then Err(Invalid(Ip6))
      else if NeedsZone(parse, ip) && zone == [] then Err(ZoneRequired)
      else Ok(v)
  }

  function CheckPort(v: Bytes): Result<int> {
    var p := ParseInt(v);
    if p.None? || p.value < 1 || p.value > 65535 then Err(Invalid(Port)) else Ok(p.value)
  }

  function CheckHash(v: Bytes): Result<Bytes> {
    if IsPkHash(v) then Ok(v) else Err(Invalid(PkHash))
  }

  /** The query parser has decoded the value already; it is decoded once more. */
  function CheckName(v: Bytes): Result<Bytes> {
    var name := QueryUnescape(v);
    if name.None? then Err(Invalid(DeviceName)) else if name.value == [] then Err(Empty(DeviceName)) else Ok(name.value)
  }

  function Optional(fs: seq<Field>, p: Param, check: Bytes -> Result<Bytes>): Result<Bytes> {
    var v := Single(fs, p);
    if v.Err? then Err(v.error) else if v.value.None? then Ok([]) else check(v.value.value)
  }

  function Needed<T>(fs: seq<Field>, p: Param, check: Bytes -> Result<T>): Result<T> {
    var v := Single(fs, p);
    if v.Err? then Err(v.error) else if v.value.None? then Err(Required(p)) else check(v.value.value)
  }

  function FromFields(parse: Parser, fs: seq<Field>, raw: Bytes): Result<ConnectURI> {
    var ip := Optional(fs, Ip, v => CheckIp(parse, v));
    if ip.Err? then Err(ip.error) else
    var ip6 := Optional(fs, Ip6, v => CheckIp6(parse, v));
    if ip6.Err? then Err(ip6.error) else
    if ip.value == [] && ip6.value == [] then Err(NoAddress) else
    var port := Needed(fs, Port, CheckPort);
    if port.Err? then Err(port.error) else
    var hash := Needed(fs, PkHash, CheckHash);
    if hash.Err? then Err(hash.error) else
    var name := Needed(fs, DeviceName, CheckName);
    if name.Err? then Err(name.error) else
    Ok(ConnectURI(ip.value, ip6.value, port.value, hash.value, name.value, raw))
  }

  const SCHEME := Ascii("lanos://")
  const CONNECT := Ascii("connect")
  const QUESTION: byte := 63

  /** The query, behind the scheme and the one path there is. */
  function QueryOf(raw: Bytes): Result<Bytes> {
    if !HasPrefix(raw, SCHEME) then Err(MissingScheme)
    else
      var rest := raw[|SCHEME|..];
      var q := IndexByte(rest, QUESTION);
      if (if q < 0 then rest else rest[..q]) != CONNECT then Err(UnexpectedPath)
      else Ok(if q < 0 then [] else rest[q + 1..])
  }

  function Parsed(parse: Parser, raw: Bytes): Result<ConnectURI> {
    var query := QueryOf(raw);
    if query.Err? then Err(query.error)
    else
      var fs := ReadQuery(Split(query.value, AMPERSAND));
      if fs.Err? then Err(fs.error) else FromFields(parse, fs.value, raw)
  }

  method CutQuery(raw: Bytes) returns (r: Result<Bytes>)
    ensures r == QueryOf(raw)
  {
    if !HasPrefix(raw, SCHEME) { return Err(MissingScheme); }
    var rest := raw[|SCHEME|..];
    var q := IndexByte(rest, QUESTION);
    var path, query := rest, [];
    if q >= 0 { path, query := rest[..q], rest[q + 1..]; }
    if path != CONNECT { return Err(UnexpectedPath); }
    return Ok(query);
  }

  /** The steps of the parser, each returning at its first violation. */
  method ParseConnectURI(parse: Parser, raw: Bytes) returns (r: Result<ConnectURI>)
    ensures r == Parsed(parse, raw)
  {
    var query := CutQuery(raw);
    if query.Err? { return Err(query.error); }
    var fs := ReadQuery(Split(query.value, AMPERSAND));
    if fs.Err? { return Err(fs.error); }
    r := FillIn(parse, fs.value, raw);
  }

  method FillIn(parse: Parser, fs: seq<Field>, raw: Bytes) returns (r: Result<ConnectURI>)
    ensures r == FromFields(parse, fs, raw)
  {
    var c := ConnectURI([], [], 0, [], [], raw);
    var v := Single(fs, Ip);
    if v.Err? { return Err(v.error); }
    if v.value.Some? {
      var ip := CheckIp(parse, v.value.value);
      if ip.Err? { return Err(ip.error); }
      c := c.(ip := ip.value);
    }
    v := Single(fs, Ip6);
    if v.Err? { return Err(v.error); }
    if v.value.Some? {
      var ip6 := CheckIp6(parse, v.value.value);
      if ip6.Err? { return Err(ip6.error); }
      c := c.(ip6 := ip6.value);
    }
    if c.ip == [] && c.ip6 == [] { return Err(NoAddress); }
    var port := Needed(fs, Port, CheckPort);
    if port.Err? { return Err(port.error); }
    var hash := Needed(fs, PkHash, CheckHash);
    if hash.Err? { return Err(hash.error); }
    var name := Needed(fs, DeviceName, CheckName);
    if name.Err? { return Err(name.error); }
    return Ok(c.(port := port.value, pkHash := hash.value, deviceName := name.value));
  }

  ghost predicate Distinct(fs: seq<Field>) {
    forall i, j :: 0 <= i < j < |fs| ==> fs[i].param != fs[j].param
  }

  lemma {:induction false} ValuesAbsent(fs: seq<Field>, p: Param)
    ensures Values(fs, p) == [] <==> forall f :: f in fs ==> f.param != p
  {
    if fs != [] {
      ValuesAbsent(fs[1..], p);
      assert fs == [fs[0]] + fs[1..];
      if Values(fs, p) != [] && fs[0].param != p {
        assert Values(fs[1..], p) != [];
      }
      assert fs[0] in fs;
    }
  }

  ghost predicate AtMostOne(fs: seq<Field>) {
    forall p :: |Values(fs, p)| <= 1
  }

  lemma DistinctMore(f: Field, rest: seq<Field>)
    ensures Distinct([f] + rest) <==> Distinct(rest) && forall g :: g in rest ==> g.param != f.param
  {
    var fs := [f] + rest;
    assert forall i :: 0 <= i < |rest| ==> rest[i] == fs[i + 1];
    if Distinct(fs) {
      forall g | g in rest ensures g.param != f.param {
        var i :| 0 <= i < |rest| && rest[i] == g;
        assert fs[0].param != fs[i + 1].param;
      }
    }
  }

  lemma AtMostOneMore(f: Field, rest: seq<Field>)
    ensures AtMostOne([f] + rest) <==> AtMostOne(rest) && Values(rest, f.param) == []
  {
    var fs := [f] + rest;
    assert fs[1..] == rest;
    forall p ensures |Values(fs, p)| == (if p == f.param then 1 else 0) + |Values(rest, p)| {}
    if AtMostOne(fs) {
      assert |Values(fs, f.param)| <= 1;
      forall p ensures |Values(rest, p)| <= 1 { assert |Values(fs, p)| <= 1; }
    }
  }

  lemma {:induction false} ValuesAreSingleIff(fs: seq<Field>)
    ensures AtMostOne(fs) <==> Distinct(fs)
  {
    if fs != [] {
      var f, rest := fs[0], fs[1..];
      assert fs == [f] + rest;
      ValuesAreSingleIff(rest);
      ValuesAbsent(rest, f.param);
      DistinctMore(f, rest);
      AtMostOneMore(f, rest);
    }
  }

  /** A URI that is accepted is unambiguous: it names no parameter twice, and none that is unknown. */
  lemma AcceptedIsUnambiguous(parse: Parser, fs: seq<Field>, raw: Bytes)
    requires FromFields(parse, fs, raw).Ok?
    ensures Distinct(fs)
  {
    assert AtMostOne(fs) by {
      forall p ensures |Values(fs, p)| <= 1 {
        match p
        case Ip => assert Single(fs, Ip).Ok?;
        case Ip6 => assert Single(fs, Ip6).Ok?;
        case Port => assert Single(fs, Port).Ok?;
        case PkHash => assert Single(fs, PkHash).Ok?;
        case DeviceName => assert Single(fs, DeviceName).Ok?;
      }
    }
    ValuesAreSingleIff(fs);
  }

  lemma {:induction false} ValueOfField(fs: seq<Field>, f: Field)
    requires Distinct(fs) && f in fs
    ensures Single(fs, f.param) == Ok(Some(f.val))
  {
    ValuesAreSingleIff(fs);
    InValues(fs, f);
  }

  lemma {:induction false} InValues(fs: seq<Field>, f: Field)
    requires f in fs
    ensures f.val in Values(fs, f.param)
  {
    assert fs == [fs[0]] + fs[1..];
    if fs[0] != f { InValues(fs[1..], f); }
  }

  // ---- writing ----

  function Encoded(f: Field): Bytes {
    match f.param
    case Ip6 => EscapePercent(f.val)
    case DeviceName => QueryEscape(f.val)
    case _ => f.val
  }

  function Encode(f: Field): Bytes {
    ParamText(f.param) + [EQUALS] + Encoded(f)
  }

  function Encodings(fs: seq<Field>): (segs: seq<Bytes>)
    ensures |segs| == |fs| && forall i :: 0 <= i < |fs| ==> segs[i] == Encode(fs[i])
  {
    seq(|fs|, i requires 0 <= i < |fs| => Encode(fs[i]))
  }

  function FieldsOf(c: ConnectURI): seq<Field> {
    (if c.ip != [] then [Field(Ip, c.ip)] else []) + (if c.ip6 != [] then [Field(Ip6, c.ip6)] else [])
    + [Field(Port, Itoa(c.port)), Field(PkHash, c.pkHash), Field(DeviceName, c.deviceName)]
  }

  function TextOf(c: ConnectURI): Bytes {
    SCHEME + CONNECT + [QUESTION] + Join(Encodings(FieldsOf(c)), AMPERSAND)
  }

  // ---- reading what was written ----

  /** The encoding carries the value through one decoding, inside one segment. */
  predicate Carries(f: Field) {
    QueryUnescape(Encoded(f)) == Some(f.val) && AMPERSAND !in Encoded(f) && SEMICOLON !in Encoded(f)
  }

  lemma SegmentIsRead(f: Field)
    requires Carries(f)
    ensures ReadSegment(Encode(f)) == Good(ParamText(f.param), f.val) && AMPERSAND !in Encode(f)
  {
    IndexIsFirst(ParamText(f.param), EQUALS, Encoded(f));
    DecodedIsItselfIff(ParamText(f.param));
  }

  lemma {:induction false} EncodingsAreRead(fs: seq<Field>)
    requires forall i :: 0 <= i < |fs| ==> Carries(fs[i])
    ensures ReadQuery(Encodings(fs)) == Ok(fs)
  {
    if fs != [] {
      EncodingsAreRead(fs[1..]);
      SegmentIsRead(fs[0]);
      EncodingsRest(fs);
      GoodIsRead(Encodings(fs), fs[0].param, fs[0].val);
      assert fs == [fs[0]] + fs[1..];
    }
  }

  lemma EncodingsRest(fs: seq<Field>)
    requires fs != []
    ensures Encodings(fs)[0] == Encode(fs[0]) && Encodings(fs)[1..] == Encodings(fs[1..])
  {
  }

  lemma GoodIsRead(segs: seq<Bytes>, p: Param, val: Bytes)
    requires segs != [] && ReadSegment(segs[0]) == Good(ParamText(p), val) && ReadQuery(segs[1..]).Ok?
    ensures ReadQuery(segs) == Ok([Field(p, val)] + ReadQuery(segs[1..]).value)
  {
    ParamOfText(p);
  }

  lemma TextIsRead(parse: Parser, c: ConnectURI)
    requires forall i :: 0 <= i < |FieldsOf(c)| ==> Carries(FieldsOf(c)[i])
    ensures Parsed(parse, TextOf(c)) == FromFields(parse, FieldsOf(c), TextOf(c))
  {
    var fs := FieldsOf(c);
    TextIsSplit(parse, c);
    forall i | 0 <= i < |fs| ensures AMPERSAND !in Encodings(fs)[i] { SegmentIsRead(fs[i]); }
    SplitOfJoin(Encodings(fs), AMPERSAND);
    EncodingsAreRead(fs);
  }

  /** A text that the query syntax takes as it is. */
  predicate PlainText(v: Bytes) {
    PERCENT !in v && PLUS !in v && AMPERSAND !in v && SEMICOLON !in v
  }

  /** What the parser checks, and that the literal it accepts as ip is plain. */
  predicate Valid(parse: Parser, c: ConnectURI) {
    && (c.ip != [] ==> PlainText(c.ip) && IsV4(parse, c.ip))
    && (c.ip6 != [] ==> CheckIp6(parse, c.ip6).Ok?)
    && (c.ip != [] || c.ip6 != [])
    && 1 <= c.port <= 65535 && IsPkHash(c.pkHash) && c.deviceName != []
  }

  lemma PlainIsCarried(p: Param, v: Bytes)
    requires p != Ip6 && p != DeviceName
    requires PlainText(v)
    ensures Carries(Field(p, v))
  {
    DecodedIsItselfIff(v);
  }

  lemma NameIsCarried(v: Bytes)
    ensures Carries(Field(DeviceName, v))
  {
    EscapeRoundTrip(v);
    EscapedIsSafe(v);
  }

  lemma Ip6IsCarried(v: Bytes)
    requires PlainZone(v)
    ensures Carries(Field(Ip6, v))
  {
    EscapePercentIff(v);
    EscapePercentBytes(v);
  }

  /** A zone without the characters the query syntax uses for itself. */
  predicate PlainZone(v: Bytes) {
    AMPERSAND !in v && SEMICOLON !in v && PLUS !in v
  }

  lemma FieldsAreCarried(parse: Parser, c: ConnectURI)
    requires Valid(parse, c) && PlainZone(c.ip6)
    ensures forall i :: 0 <= i < |FieldsOf(c)| ==> Carries(FieldsOf(c)[i])
  {
    if c.ip != [] { PlainIsCarried(Ip, c.ip); }
    if c.ip6 != [] { Ip6IsCarried(c.ip6); }
    PlainIsCarried(Port, Itoa(c.port));
    PlainIsCarried(PkHash, c.pkHash);
    NameIsCarried(c.deviceName);
  }

  lemma FieldsAreDistinct(c: ConnectURI)
    ensures Distinct(FieldsOf(c))
  {
  }

  lemma FieldIn(c: ConnectURI, f: Field)
    requires || f == Field(Port, Itoa(c.port)) || f == Field(PkHash, c.pkHash) || f == Field(DeviceName, c.deviceName)
             || (f == Field(Ip, c.ip) && c.ip != []) || (f == Field(Ip6, c.ip6) && c.ip6 != [])
    ensures f in FieldsOf(c)
  {
  }

  lemma FieldAbsent(c: ConnectURI, p: Param)
    requires (p == Ip && c.ip == []) || (p == Ip6 && c.ip6 == [])
    ensures Single(FieldsOf(c), p) == Ok(None)
  {
    var fs := FieldsOf(c);
    assert forall f :: f in fs ==> f.param != p;
    ValuesAbsent(fs, p);
  }

  lemma FieldFound(c: ConnectURI, f: Field)
    requires || f == Field(Port, Itoa(c.port)) || f == Field(PkHash, c.pkHash) || f == Field(DeviceName, c.deviceName)
             || (f == Field(Ip, c.ip) && c.ip != []) || (f == Field(Ip6, c.ip6) && c.ip6 != [])
    ensures Single(FieldsOf(c), f.param) == Ok(Some(f.val))
  {
    FieldsAreDistinct(c);
    FieldIn(c, f);
    ValueOfField(FieldsOf(c), f);
  }

  lemma FieldsAreFound(c: ConnectURI)
    ensures var fs := FieldsOf(c);
            && Single(fs, Ip) == Ok(if c.ip != [] then Some(c.ip) else None)
            && Single(fs, Ip6) == Ok(if c.ip6 != [] then Some(c.ip6) else None)
            && Single(fs, Port) == Ok(Some(Itoa(c.port)))
            && Single(fs, PkHash) == Ok(Some(c.pkHash))
            && Single(fs, DeviceName) == Ok(Some(c.deviceName))
  {
    if c.ip != [] { FieldFound(c, Field(Ip, c.ip)); } else { FieldAbsent(c, Ip); }
    if c.ip6 != [] { FieldFound(c, Field(Ip6, c.ip6)); } else { FieldAbsent(c, Ip6); }
    FieldFound(c, Field(Port, Itoa(c.port)));
    FieldFound(c, Field(PkHash, c.pkHash));
    FieldFound(c, Field(DeviceName, c.deviceName));
  }

  lemma FoundFields(parse: Parser, c: ConnectURI, raw: Bytes)
    requires Valid(parse, c)
    ensures FromFields(parse, FieldsOf(c), raw) ==
            var name := CheckName(c.deviceName);
            if name.Err? then Err(name.error) else Ok(c.(deviceName := name.value, raw := raw))
  {
    FieldsAreFound(c);
    ParseIntOfItoa(c.port);
  }

  /** Every segment of a query that is accepted is one of its fields. */
  lemma {:induction false} SegmentIsField(segs: seq<Bytes>, seg: Bytes)
    requires ReadQuery(segs).Ok? && seg in segs && ReadSegment(seg) != Skip
    ensures ReadSegment(seg).Good? && ParamOf(ReadSegment(seg).key).Some?
    ensures Field(ParamOf(ReadSegment(seg).key).value, ReadSegment(seg).val) in ReadQuery(segs).value
    decreases |segs|
  {
    assert segs == [segs[0]] + segs[1..];
    if seg != segs[0] { SegmentIsField(segs[1..], seg); }
  }

  /** The text up to the first separator, as an escaped prefix of the value. */
  lemma {:induction false} FirstPiece(v: Bytes)
    ensures exists q: nat :: q <= |v| && Split(EscapePercent(v), AMPERSAND)[0] == EscapePercent(v[..q]) && (q == |v| ==> AMPERSAND !in v)
  {
    if AMPERSAND !in v {
      EscapePercentBytes(v);
      assert v[..|v|] == v;
    } else {
      var q := IndexByte(v, AMPERSAND);
      EscapeUpTo(v, q);
      EscapePercentBytes(v[..q]);
      IndexIsFirst(EscapePercent(v[..q]), AMPERSAND, EscapePercent(v[q + 1..]));
    }
  }

  lemma {:induction false} EscapeUpTo(v: Bytes, q: nat)
    requires q < |v| && v[q] == AMPERSAND
    ensures EscapePercent(v) == EscapePercent(v[..q]) + [AMPERSAND] + EscapePercent(v[q + 1..])
  {
    if q > 0 {
      EscapeUpTo(v[1..], q - 1);
      assert v[1..][..q - 1] == v[..q][1..] && v[1..][q..] == v[q + 1..];
    }
  }

  lemma FirstOfSplit(a: Bytes, b: Bytes)
    requires AMPERSAND !in a
    ensures Split(a + b, AMPERSAND)[0] == a + Split(b, AMPERSAND)[0]
  {
    var i := IndexByte(b, AMPERSAND);
    if i < 0 {
      assert AMPERSAND !in a + b;
    } else {
      assert b == b[..i] + [AMPERSAND] + b[i + 1..];
      IndexIsFirst(a + b[..i], AMPERSAND, b[i + 1..]);
      assert a + b == (a + b[..i]) + [AMPERSAND] + b[i + 1..];
    }
  }

  /** The piece of the text that starts with the zone's address, up to the first separator. */
  lemma ZonePiece(c: ConnectURI) returns (q: nat, piece: Bytes)
    requires c.ip6 != []
    ensures q <= |c.ip6| && (q == |c.ip6| ==> AMPERSAND !in c.ip6)
    ensures piece == ParamText(Ip6) + [EQUALS] + EscapePercent(c.ip6[..q])
    ensures piece in Split(Join(Encodings(FieldsOf(c)), AMPERSAND), AMPERSAND)
  {
    var segs := Encodings(FieldsOf(c));
    var k := if c.ip != [] then 1 else 0;
    assert FieldsOf(c)[k] == Field(Ip6, c.ip6);
    FirstPiece(c.ip6);
    q :| q <= |c.ip6| && Split(EscapePercent(c.ip6), AMPERSAND)[0] == EscapePercent(c.ip6[..q]) && (q == |c.ip6| ==> AMPERSAND !in c.ip6);
    piece := ParamText(Ip6) + [EQUALS] + EscapePercent(c.ip6[..q]);
    FirstOfSplit(ParamText(Ip6) + [EQUALS], EscapePercent(c.ip6));
    PiecesOfJoin(segs, AMPERSAND, k, piece);
  }

  /** What an accepted text says about the zone: only a plain one comes back as it was. */
  lemma AcceptedZoneIsPlain(parse: Parser, c: ConnectURI)
    requires c.ip6 != []
    requires var fs := ReadQuery(Split(Join(Encodings(FieldsOf(c)), AMPERSAND), AMPERSAND));
             fs.Ok? && Distinct(fs.value) && Single(fs.value, Ip6) == Ok(Some(c.ip6))
    ensures PlainZone(c.ip6)
  {
    var all := Split(Join(Encodings(FieldsOf(c)), AMPERSAND), AMPERSAND);
    var q, piece := ZonePiece(c);
    var a := EscapePercent(c.ip6[..q]);
    PieceIsField(piece, a, all);
    EscapePercentIff(c.ip6[..q]);
    var f := Field(Ip6, QueryUnescape(a).value);
    ValueOfField(ReadQuery(all).value, f);
    assert f.val == c.ip6 && |f.val| == q;
    assert c.ip6[..q] == c.ip6;
    EscapePercentBytes(c.ip6);
  }

  lemma PieceIsField(piece: Bytes, a: Bytes, all: seq<Bytes>)
    requires piece == ParamText(Ip6) + [EQUALS] + a && piece in all && ReadQuery(all).Ok?
    ensures SEMICOLON !in a && QueryUnescape(a).Some? && Field(Ip6, QueryUnescape(a).value) in ReadQuery(all).value
  {
    IndexIsFirst(ParamText(Ip6), EQUALS, a);
    DecodedIsItselfIff(ParamText(Ip6));
    ParamOfText(Ip6);
    SegmentIsField(all, piece);
  }

  lemma PrefixIsCut(a: Bytes, b: Bytes)
    ensures HasPrefix(a + b, a) && (a + b)[|a|..] == b
  {
  }

  lemma QueryOfText(query: Bytes)
    ensures QueryOf(SCHEME + CONNECT + [QUESTION] + query) == Ok(query)
  {
    var rest := CONNECT + [QUESTION] + query;
    PrefixIsCut(SCHEME, rest);
    assert SCHEME + CONNECT + [QUESTION] + query == SCHEME + rest;
    IndexIsFirst(CONNECT, QUESTION, query);
  }

  lemma TextIsSplit(parse: Parser, c: ConnectURI)
    ensures var fs := ReadQuery(Split(Join(Encodings(FieldsOf(c)), AMPERSAND), AMPERSAND));
            Parsed(parse, TextOf(c)) == if fs.Err? then Err(fs.error) else FromFields(parse, fs.value, TextOf(c))
  {
    QueryOfText(Join(Encodings(FieldsOf(c)), AMPERSAND));
  }

  lemma Ip6OfFields(parse: Parser, fs: seq<Field>, raw: Bytes)
    requires FromFields(parse, fs, raw).Ok? && FromFields(parse, fs, raw).value.ip6 != []
    ensures Single(fs, Ip6) == Ok(Some(FromFields(parse, fs, raw).value.ip6))
  {
  }

  lemma PlainRoundTripIff(parse: Parser, c: ConnectURI)
    requires Valid(parse, c) && PlainZone(c.ip6)
    ensures Parsed(parse, TextOf(c)) == Ok(c.(raw := TextOf(c))) <==> PERCENT !in c.deviceName && PLUS !in c.deviceName
  {
    FieldsAreCarried(parse, c);
    TextIsRead(parse, c);
    FoundFields(parse, c, TextOf(c));
    DecodedIsItselfIff(c.deviceName);
  }

  lemma ReadBackIsPlain(parse: Parser, c: ConnectURI)
    requires Parsed(parse, TextOf(c)) == Ok(c.(raw := TextOf(c)))
    ensures PlainZone(c.ip6)
  {
    if c.ip6 != [] {
      TextIsSplit(parse, c);
      var fs := ReadQuery(Split(Join(Encodings(FieldsOf(c)), AMPERSAND), AMPERSAND)).value;
      AcceptedIsUnambiguous(parse, fs, TextOf(c));
      Ip6OfFields(parse, fs, TextOf(c));
      AcceptedZoneIsPlain(parse, c);
    }
  }

  /** A URI that is written is read back, field by field, exactly if its zone does not use the characters
      of the query syntax and the device name, which is decoded twice, has no percent and no plus sign. */
  lemma UriRoundTripIff(parse: Parser, c: ConnectURI)
    requires Valid(parse, c)
    ensures Parsed(parse, TextOf(c)) == Ok(c.(raw := TextOf(c))) <==>
            PlainZone(c.ip6) && PERCENT !in c.deviceName && PLUS !in c.deviceName
  {
    if PlainZone(c.ip6) {
      PlainRoundTripIff(parse, c);
    }
    if Parsed(parse, TextOf(c)) == Ok(c.(raw := TextOf(c))) {
      ReadBackIsPlain(parse, c);
    }
  }

  /** A device called "A+B" is read back as "A B". */
  lemma PlusIsLost(parse: Parser, c: ConnectURI)
    requires Valid(parse, c) && PlainZone(c.ip6) && c.deviceName == [65, PLUS, 66]
    ensures Parsed(parse, TextOf(c)) == Ok(c.(raw := TextOf(c), deviceName := [65, BLANK, 66]))
  {
    FieldsAreCarried(parse, c);
    TextIsRead(parse, c);
    FoundFields(parse, c, TextOf(c));
    PlusIsBlank(65, 66);
  }

  lemma PlusIsBlank(a: byte, b: byte)
    requires a != PERCENT && a != PLUS && b != PERCENT && b != PLUS
    ensures QueryUnescape([a, PLUS, b]) == Some([a, BLANK, b])
  {
    var s: Bytes := [a, PLUS, b];
    var t: Bytes := [PLUS, b];
    var u: Bytes := [b];
    var none: Bytes := [];
    assert s[1..] == t && t[1..] == u && u[1..] == none;
    assert QueryUnescape(none) == Some(none) && [b] + none == u;
    assert QueryUnescape(u) == Some(u);
    assert [BLANK] + u == [BLANK, b] && [a] + [BLANK, b] == [a, BLANK, b];
  }

  // ---- the writer ----

  lemma Regroup(pre: Bytes, a: Bytes, b: Bytes, c: Bytes, d: Bytes, e: Bytes)
    ensures pre + a + b + c + d + e == pre + (a + b + c + d + e)
  {
  }

  /** The builder appends piece by piece. */
  method Write(c: ConnectURI) returns (b: Bytes)
    ensures b == TextOf(c)
  {
    b := SCHEME + CONNECT + [QUESTION];
    ghost var start := b;
    if c.ip != [] {
      b := b + (Encode(Field(Ip, c.ip)) + [AMPERSAND]);
    }
    if c.ip6 != [] {
      b := b + (Encode(Field(Ip6, c.ip6)) + [AMPERSAND]);
    }
    ghost var written := b;
    Optionals(start, c);
    b := b + Encode(Field(Port, Itoa(c.port))) + [AMPERSAND] + Encode(Field(PkHash, c.pkHash)) + [AMPERSAND]
         + Encode(Field(DeviceName, c.deviceName));
    Regroup(written, Encode(Field(Port, Itoa(c.port))), [AMPERSAND], Encode(Field(PkHash, c.pkHash)), [AMPERSAND],
            Encode(Field(DeviceName, c.deviceName)));
    JoinOfFields(c);
    Associate(start, Lead(c.ip, Ip) + Lead(c.ip6, Ip6), TailOf(c));
  }

  /** A parameter that is left out if it is empty. */
  function Lead(v: Bytes, p: Param): Bytes {
    if v != [] then Encode(Field(p, v)) + [AMPERSAND] else []
  }

  lemma Optionals(start: Bytes, c: ConnectURI)
    ensures var one := if c.ip != [] then start + (Encode(Field(Ip, c.ip)) + [AMPERSAND]) else start;
            var two := if c.ip6 != [] then one + (Encode(Field(Ip6, c.ip6)) + [AMPERSAND]) else one;
            two == start + (Lead(c.ip, Ip) + Lead(c.ip6, Ip6))
  {
    Associate(start, Lead(c.ip, Ip), Lead(c.ip6, Ip6));
  }

  function TailOf(c: ConnectURI): Bytes {
    Encode(Field(Port, Itoa(c.port))) + [AMPERSAND] + Encode(Field(PkHash, c.pkHash)) + [AMPERSAND]
    + Encode(Field(DeviceName, c.deviceName))
  }

  lemma JoinFirst(f: Field, rest: seq<Field>)
    requires rest != []
    ensures Join(Encodings([f] + rest), AMPERSAND) == Encode(f) + [AMPERSAND] + Join(Encodings(rest), AMPERSAND)
  {
    assert Encodings([f] + rest)[1..] == Encodings(rest);
  }

  lemma JoinLead(v: Bytes, p: Param, rest: seq<Field>)
    requires rest != []
    ensures Join(Encodings((if v != [] then [Field(p, v)] else []) + rest), AMPERSAND) == Lead(v, p) + Join(Encodings(rest), AMPERSAND)
  {
    if v != [] {
      JoinFirst(Field(p, v), rest);
    } else {
      assert [] + rest == rest;
      assert [] + Join(Encodings(rest), AMPERSAND) == Join(Encodings(rest), AMPERSAND);
    }
  }

  lemma JoinTail(c: ConnectURI)
    ensures Join(Encodings([Field(Port, Itoa(c.port)), Field(PkHash, c.pkHash), Field(DeviceName, c.deviceName)]), AMPERSAND) == TailOf(c)
  {
    var p, h, n := Field(Port, Itoa(c.port)), Field(PkHash, c.pkHash), Field(DeviceName, c.deviceName);
    JoinFirst(h, [n]);
    JoinFirst(p, [h] + [n]);
    assert [p, h, n] == [p] + ([h] + [n]);
    assert Join(Encodings([n]), AMPERSAND) == Encode(n);
  }

  lemma JoinOfFields(c: ConnectURI)
    ensures Join(Encodings(FieldsOf(c)), AMPERSAND) == Lead(c.ip, Ip) + Lead(c.ip6, Ip6) + TailOf(c)
  {
    var last := [Field(Port, Itoa(c.port)), Field(PkHash, c.pkHash), Field(DeviceName, c.deviceName)];
    var six := (if c.ip6 != [] then [Field(Ip6, c.ip6)] else []) + last;
    JoinTail(c);
    JoinLead(c.ip6, Ip6, last);
    JoinLead(c.ip, Ip, six);
    assert FieldsOf(c) == (if c.ip != [] then [Field(Ip, c.ip)] else []) + six;
    Associate(Lead(c.ip, Ip), Lead(c.ip6, Ip6), TailOf(c));
  }

  // ---- what is accepted ----

  ghost predicate Absent(fs: seq<Field>, p: Param) {
    forall f :: f in fs ==> f.param != p
  }

  lemma {:induction false} ValuesAreFields(fs: seq<Field>, p: Param, v: Bytes)
    ensures v in Values(fs, p) <==> Field(p, v) in fs
  {
    if fs != [] {
      ValuesAreFields(fs[1..], p, v);
      assert fs == [fs[0]] + fs[1..];
    }
  }

  lemma SingleIff(fs: seq<Field>, p: Param)
    requires Distinct(fs)
    ensures Single(fs, p).Ok? && (Single(fs, p).value.None? <==> Absent(fs, p))
    ensures forall v :: Single(fs, p).value == Some(v) <==> Field(p, v) in fs
  {
    ValuesAreSingleIff(fs);
    ValuesAbsent(fs, p);
    var vs := Values(fs, p);
    assert |vs| <= 1;
    forall v ensures Single(fs, p).value == Some(v) <==> Field(p, v) in fs {
      ValuesAreFields(fs, p, v);
    }
  }

  /** An IPv4 literal: what it stands for lies in ::ffff:0:0/96. */
  predicate Literal4(parse: Parser, v: Bytes) {
    parse(v).Some? && Address.Within(parse(v).value, Address.Block4(0, 0), 96)
  }

  /** An IPv6 literal, with a zone if it lies in fe80::/10 or is link-local multicast. */
  predicate Literal6(parse: Parser, v: Bytes) {
    var (text, zone) := AddrText.SplitZone(v);
    && parse(text).Some? && !Address.Within(parse(text).value, Address.Block4(0, 0), 96)
    && (InLinkBlock(parse(text).value) ==> zone != [])
  }

  predicate InLinkBlock(ip: Address.Ip) {
    || Address.Within(ip, Address.Block6(0xfe, 0x80), 10)
    || (Address.Within(ip, Address.Block6(0xff, 0), 8) && Address.To16(ip)[1] & 0x0f == 2)
  }

  lemma Literal4Iff(parse: Parser, v: Bytes)
    ensures IsV4(parse, v) <==> Literal4(parse, v)
  {
    if parse(v).Some? { Address.V4Block(parse(v).value); }
  }

  lemma BlocksOfV6(ip: Address.Ip)
    requires Address.IsV6(ip)
    ensures !Address.Within(ip, Address.Block4(169, 254), 112) && !Address.Within(ip, Address.Block4(224, 0), 120)
  {
    var a := Address.To16(ip);
    Address.FormOfV4(ip);
    Address.WithinBytesIff(ip, Address.Block4(169, 254), 14);
    Address.WithinBytesIff(ip, Address.Block4(224, 0), 15);
    Address.FrontOfV4(a, Address.Block4(169, 254), 14);
    Address.FrontOfV4(a, Address.Block4(224, 0), 15);
  }

  lemma Literal6Iff(parse: Parser, v: Bytes)
    ensures CheckIp6(parse, v).Ok? <==> v != [] && Literal6(parse, v)
  {
    var text := AddrText.SplitZone(v).0;
    if parse(text).Some? {
      var ip := parse(text).value;
      Address.V4Block(ip);
      Address.LinkLocalBlocks(ip);
      Address.LinkLocalMulticastBlocks(ip);
      if Address.IsV6(ip) { BlocksOfV6(ip); }
    }
  }

  /** No parameter twice; one of the two addresses at least, each a literal of its family; a port from 1 to 65535,
      a hash of 32 lowercase hexadecimal digits, and a name that decodes to something. */
  ghost predicate Accepts(parse: Parser, fs: seq<Field>, c: ConnectURI) {
    && Distinct(fs)
    && (if c.ip == [] then Absent(fs, Ip) else Field(Ip, c.ip) in fs && Literal4(parse, c.ip))
    && (if c.ip6 == [] then Absent(fs, Ip6) else Field(Ip6, c.ip6) in fs && Literal6(parse, c.ip6))
    && (c.ip != [] || c.ip6 != [])
    && 1 <= c.port <= 65535 && (exists v :: Field(Port, v) in fs && Numeral(v, c.port))
    && Field(PkHash, c.pkHash) in fs && |c.pkHash| == 32 && (forall b :: b in c.pkHash ==> 48 <= b <= 57 || 97 <= b <= 102)
    && c.deviceName != [] && (exists v :: Field(DeviceName, v) in fs && QueryUnescape(v) == Some(c.deviceName))
  }

  lemma IpIff(parse: Parser, fs: seq<Field>, ip: Bytes)
    requires Distinct(fs)
    ensures Optional(fs, Ip, v => CheckIp(parse, v)) == Ok(ip)
            <==> if ip == [] then Absent(fs, Ip) else Field(Ip, ip) in fs && Literal4(parse, ip)
  {
    SingleIff(fs, Ip);
    Literal4Iff(parse, ip);
  }

  lemma Ip6Iff(parse: Parser, fs: seq<Field>, ip6: Bytes)
    requires Distinct(fs)
    ensures Optional(fs, Ip6, v => CheckIp6(parse, v)) == Ok(ip6)
            <==> if ip6 == [] then Absent(fs, Ip6) else Field(Ip6, ip6) in fs && Literal6(parse, ip6)
  {
    SingleIff(fs, Ip6);
    Literal6Iff(parse, ip6);
  }

  lemma PortIff(fs: seq<Field>, port: int)
    requires Distinct(fs)
    ensures Needed(fs, Port, CheckPort) == Ok(port)
            <==> 1 <= port <= 65535 && exists v :: Field(Port, v) in fs && Numeral(v, port)
  {
    SingleIff(fs, Port);
    forall v ensures ParseInt(v) == Some(port) <==> Numeral(v, port) { ParseIntIff(v, port); }
  }

  lemma HashIff(fs: seq<Field>, hash: Bytes)
    requires Distinct(fs)
    ensures Needed(fs, PkHash, CheckHash) == Ok(hash)
            <==> Field(PkHash, hash) in fs && |hash| == 32 && forall b :: b in hash ==> 48 <= b <= 57 || 97 <= b <= 102
  {
    SingleIff(fs, PkHash);
    assert forall i :: 0 <= i < |hash| ==> hash[i] in hash;
  }

  lemma NameIff(fs: seq<Field>, name: Bytes)
    requires Distinct(fs)
    ensures Needed(fs, DeviceName, CheckName) == Ok(name)
            <==> name != [] && exists v :: Field(DeviceName, v) in fs && QueryUnescape(v) == Some(name)
  {
    SingleIff(fs, DeviceName);
  }

  /** Exactly what the parser accepts, and as what. */
  lemma AcceptedIff(parse: Parser, fs: seq<Field>, raw: Bytes, c: ConnectURI)
    ensures FromFields(parse, fs, raw) == Ok(c) <==> Accepts(parse, fs, c) && c.raw == raw
  {
    if FromFields(parse, fs, raw).Ok? { AcceptedIsUnambiguous(parse, fs, raw); }
    if Distinct(fs) {
      IpIff(parse, fs, c.ip);
      Ip6Iff(parse, fs, c.ip6);
      PortIff(fs, c.port);
      HashIff(fs, c.pkHash);
      NameIff(fs, c.deviceName);
    }
  }

  /** The only path is "connect", with a query behind a question mark or none. */
  lemma QueryIff(raw: Bytes, query: Bytes)
    ensures QueryOf(raw) == Ok(query) <==>
            raw == Ascii("lanos://connect?") + query || (raw == Ascii("lanos://connect") && query == [])
  {
    StartAsWritten();
    assert SCHEME + CONNECT == Ascii("lanos://connect");
    if QueryOf(raw) == Ok(query) {
      QueryFrom(raw, query);
    } else if raw == Ascii("lanos://connect?") + query {
      QueryOfText(query);
    } else if raw == SCHEME + CONNECT && query == [] {
      PrefixIsCut(SCHEME, CONNECT);
    }
  }

  lemma QueryFrom(raw: Bytes, query: Bytes)
    requires QueryOf(raw) == Ok(query)
    ensures raw == SCHEME + CONNECT + [QUESTION] + query || (raw == SCHEME + CONNECT && query == [])
  {
    var rest := raw[|SCHEME|..];
    assert raw == SCHEME + rest;
    var q := IndexByte(rest, QUESTION);
    if q >= 0 {
      assert rest == rest[..q] + [QUESTION] + rest[q + 1..];
      assert SCHEME + (CONNECT + [QUESTION] + query) == SCHEME + CONNECT + [QUESTION] + query;
    }
  }

  /** The canonical text, as it is written. */
  lemma TextIsCanonical(c: ConnectURI)
    ensures TextOf(c) == Ascii("lanos://connect?")
      + ((if c.ip != [] then Ascii("ip=") + c.ip + Ascii("&") else [])
         + (if c.ip6 != [] then Ascii("ip6=") + EscapePercent(c.ip6) + Ascii("&") else [])
         + (Ascii("port=") + Itoa(c.port) + Ascii("&") + (Ascii("pk-hash=") + c.pkHash) + Ascii("&")
            + (Ascii("device-name=") + QueryEscape(c.deviceName))))
  {
    JoinOfFields(c);
    NamesAsWritten();
    StartAsWritten();
  }

  lemma NamesAsWritten()
    ensures ParamText(Ip) + [EQUALS] == Ascii("ip=") && ParamText(Ip6) + [EQUALS] == Ascii("ip6=")
    ensures ParamText(Port) + [EQUALS] == Ascii("port=") && ParamText(PkHash) + [EQUALS] == Ascii("pk-hash=")
    ensures ParamText(DeviceName) + [EQUALS] == Ascii("device-name=") && Ascii("&") == [AMPERSAND]
  {
  }

  lemma StartAsWritten()
    ensures SCHEME + CONNECT + [QUESTION] == Ascii("lanos://connect?")
  {
  }
}
