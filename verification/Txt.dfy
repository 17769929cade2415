/** The TXT record of the service announcement: key=value lines, as section 6 of RFC 6763 has them. */
module Txt {
  import opened Bytes
  import opened Text
  import opened Percent

  datatype Key = TxtVer | Proto | Platform | Port | PkHash | DeviceName | IpVer

  function KeyText(k: Key): (t: Bytes)
    ensures t != [] && EQUALS !in t
  {
    match k
    case TxtVer => Ascii("txt-ver")
    case Proto => Ascii("proto")
    case Platform => Ascii("platform")
    case Port => Ascii("port")
    case PkHash => Ascii("pk-hash")
    case DeviceName => Ascii("device-name")
    case IpVer => Ascii("ip-ver")
  }

  function KeyOf(t: Bytes): Option<Key> {
    if t == KeyText(TxtVer) then Some(TxtVer)
    else if t == KeyText(Proto) then Some(Proto)
    else if t == KeyText(Platform) then Some(Platform)
    else if t == KeyText(Port) then Some(Port)
    else if t == KeyText(PkHash) then Some(PkHash)
    else if t == KeyText(DeviceName) then Some(DeviceName)
    else if t == KeyText(IpVer) then Some(IpVer)
    else None
  }

  lemma KeyOfText(k: Key)
    ensures KeyOf(KeyText(k)) == Some(k)
  {
    assert KeyText(TxtVer)[0] == 't' as int && KeyText(PkHash)[0] == 'p' as int;
  }

  datatype TxtRecord = TxtRecord(
    txtVersion: Bytes, proto: Bytes, platform: Bytes, port: int, pubHash: Bytes, deviceName: Bytes, ipVersion: Bytes)

  datatype TxtError =
    | InvalidPort(text: Bytes) | InvalidName(text: Bytes) | MissingField(key: Key)
    | UnsupportedVersion | UnsupportedProto | InvalidIPVersion | HashLength | HashDigits | PortRange(port: int)

  datatype Result<+T> = Ok(value: T) | Err(error: TxtError)

  datatype Acc = Acc(rec: TxtRecord, seen: set<Key>)

  const EMPTY := Acc(TxtRecord([], [], [], 0, [], [], []), {})

  function Store(rec: TxtRecord, k: Key, val: Bytes): Result<TxtRecord> {
    match k
    case TxtVer => Ok(rec.(txtVersion := val))
    case Proto => Ok(rec.(proto := val))
    case Platform => Ok(rec.(platform := val))
    case Port =>
      var p := ParseInt(val);
      if p.None? then Err(InvalidPort(val)) else Ok(rec.(port := p.value))
    case PkHash => Ok(rec.(pubHash := val))
    case DeviceName =>
      var name := QueryUnescape(val);
      if name.None? then Err(InvalidName(val)) else Ok(rec.(deviceName := name.value))
    case IpVer => Ok(rec.(ipVersion := val))
  }

  /** The key of a line, if it has one that is known. */
  function KeyOfLine(line: Bytes): Option<Key> {
    var eq := IndexByte(line, EQUALS);
    if eq <= 0 then None else KeyOf(line[..eq])
  }

  function AddLine(acc: Acc, line: Bytes): Result<Acc> {
    var k := KeyOfLine(line);
    if k.None? then Ok(acc)
    else
      var r := Store(acc.rec, k.value, line[IndexByte(line, EQUALS) + 1..]);
      if r.Err? then Err(r.error) else Ok(Acc(r.value, acc.seen + {k.value}))
  }

  function AddLines(acc: Acc, lines: seq<Bytes>): Result<Acc>
    decreases |lines|
  {
    if lines == [] then Ok(acc)
    else
      var r := AddLine(acc, lines[0]);
      if r.Err? then r else AddLines(r.value, lines[1..])
  }

  const VERSION := Ascii("1")
  const PROTO_VERSION := Ascii("lanos/1.0")
  const PROTO_PREFIX := Ascii("lanos/")

  predicate IsIpVersion(v: Bytes) {
    v == Ascii("4") || v == Ascii("6") || v == Ascii("46")
  }

  /** The first required field that was not seen; the device name is not required. */
  function Missing(seen: set<Key>): Option<Key> {
    if TxtVer !in seen then Some(TxtVer)
    else if Proto !in seen then Some(Proto)
    else if Platform !in seen then Some(Platform)
    else if Port !in seen then Some(Port)
    else if PkHash !in seen then Some(PkHash)
    else if IpVer !in seen then Some(IpVer)
    else None
  }

  function Checked(acc: Acc): Result<TxtRecord> {
    var rec := acc.rec;
    var missing := Missing(acc.seen);
    if missing.Some? then Err(MissingField(missing.value))
    else if rec.txtVersion != VERSION then Err(UnsupportedVersion)
    else if !HasPrefix(rec.proto, PROTO_PREFIX) then Err(UnsupportedProto)
    else if !IsIpVersion(rec.ipVersion) then Err(InvalidIPVersion)
    else if |rec.pubHash| != 32 then Err(HashLength)
    else if !IsLowerHex(rec.pubHash) then Err(HashDigits)
    else if rec.port <= 0 || rec.port > 65535 then Err(PortRange(rec.port))
    else Ok(rec)
  }

  function Parsed(lines: seq<Bytes>): Result<TxtRecord> {
    var acc := AddLines(EMPTY, lines);
    if acc.Err? then Err(acc.error) else Checked(acc.value)
  }

  lemma {:induction false} AddLinesAppend(acc: Acc, a: seq<Bytes>, b: seq<Bytes>)
    ensures AddLines(acc, a + b) == var r := AddLines(acc, a); if r.Err? then r else AddLines(r.value, b)
    decreases |a|
  {
    if a == [] {
      assert a + b == b;
    } else {
      assert (a + b)[0] == a[0] && (a + b)[1..] == a[1..] + b;
      var r := AddLine(acc, a[0]);
      if r.Ok? { AddLinesAppend(r.value, a[1..], b); }
    }
  }

  lemma AddOne(acc: Acc, line: Bytes)
    ensures AddLines(acc, [line]) == AddLine(acc, line)
  {
    var r := AddLine(acc, line);
    assert [line][1..] == [];
    if r.Ok? { assert AddLines(r.value, []) == Ok(r.value); }
  }

  /** The loop over the lines, then the loop over the required fields and the checks. */
  method ParseTXT(lines: seq<Bytes>) returns (r: Result<TxtRecord>)
    ensures r == Parsed(lines)
  {
    var acc := EMPTY;
    var i := 0;
    while i < |lines|
      invariant 0 <= i <= |lines| && AddLines(EMPTY, lines[..i]) == Ok(acc)
    {
      assert lines[..i + 1] == lines[..i] + [lines[i]] && lines == lines[..i + 1] + lines[i + 1..];
      AddLinesAppend(EMPTY, lines[..i], [lines[i]]);
      AddOne(acc, lines[i]);
      AddLinesAppend(EMPTY, lines[..i + 1], lines[i + 1..]);
      var next := AddLine(acc, lines[i]);
      if next.Err? { return Err(next.error); }
      acc := next.value;
      i := i + 1;
    }
    assert lines[..i] == lines;
    return Checked(acc);
  }

  /** Lines without a known key can stand anywhere and mean nothing. */
  lemma UnknownIsIgnored(a: seq<Bytes>, line: Bytes, b: seq<Bytes>)
    requires KeyOfLine(line).None?
    ensures Parsed(a + [line] + b) == Parsed(a + b)
  {
    assert a + [line] + b == a + ([line] + b);
    AddLinesAppend(EMPTY, a, [line] + b);
    AddLinesAppend(EMPTY, a, b);
    var r := AddLines(EMPTY, a);
    if r.Ok? {
      AddLinesAppend(r.value, [line], b);
      AddOne(r.value, line);
    }
  }

  // ---- building ----

  datatype Field = Field(key: Key, val: Bytes)

  function Line(f: Field): Bytes {
    KeyText(f.key) + [EQUALS] + f.val
  }

  function LinesOf(fs: seq<Field>): seq<Bytes> {
    if fs == [] then [] else [Line(fs[0])] + LinesOf(fs[1..])
  }

  datatype BuildError = BadIpVersion | BadPort | EmptyHash
  datatype Built = Lines(lines: seq<Bytes>) | NotBuilt(error: BuildError)

  function Announcement(a: TxtRecord): seq<Field> {
    [ Field(TxtVer, a.txtVersion), Field(Proto, a.proto), Field(Platform, a.platform), Field(Port, Itoa(a.port)),
      Field(PkHash, a.pubHash), Field(DeviceName, QueryEscape(a.deviceName)), Field(IpVer, a.ipVersion) ]
  }

  /** The service's own record. */
  function Own(port: int, deviceName: Bytes, pubHash: Bytes, platform: Bytes, ipVer: Bytes): TxtRecord {
    TxtRecord(VERSION, PROTO_VERSION, platform, port, pubHash, deviceName, ipVer)
  }

  function BuildTXT(port: int, deviceName: Bytes, pubHash: Bytes, platform: Bytes, ipVer: Bytes): Built {
    if !IsIpVersion(ipVer) then NotBuilt(BadIpVersion)
    else if port <= 0 || port > 65535 then NotBuilt(BadPort)
    else if pubHash == [] then NotBuilt(EmptyHash)
    else Lines(LinesOf(Announcement(Own(port, deviceName, pubHash, platform, ipVer))))
  }

  // ---- reading what was built ----

  /** The record holds the value of the field. */
  predicate Agrees(rec: TxtRecord, f: Field) {
    match f.key
    case TxtVer => rec.txtVersion == f.val
    case Proto => rec.proto == f.val
    case Platform => rec.platform == f.val
    case Port => ParseInt(f.val) == Some(rec.port)
    case PkHash => rec.pubHash == f.val
    case DeviceName => QueryUnescape(f.val) == Some(rec.deviceName)
    case IpVer => rec.ipVersion == f.val
  }

  predicate Storable(f: Field) {
    (f.key == Port ==> ParseInt(f.val).Some?) && (f.key == DeviceName ==> QueryUnescape(f.val).Some?)
  }

  lemma StoreAgrees(rec: TxtRecord, f: Field)
    requires Storable(f)
    ensures Store(rec, f.key, f.val).Ok? && Agrees(Store(rec, f.key, f.val).value, f)
    ensures forall g: Field :: g.key != f.key && Agrees(rec, g) ==> Agrees(Store(rec, f.key, f.val).value, g)
  {
  }

  /** What has been read after one more field. */
  function Stored(acc: Acc, f: Field): Acc
    requires Storable(f)
  {
    StoreAgrees(acc.rec, f);
    Acc(Store(acc.rec, f.key, f.val).value, acc.seen + {f.key})
  }

  lemma AddKnown(acc: Acc, f: Field)
    requires Storable(f)
    ensures AddLine(acc, Line(f)) == Ok(Stored(acc, f))
  {
    IndexIsFirst(KeyText(f.key), EQUALS, f.val);
    KeyOfText(f.key);
    StoreAgrees(acc.rec, f);
  }

  ghost predicate Distinct(fs: seq<Field>) {
    forall i, j :: 0 <= i < j < |fs| ==> fs[i].key != fs[j].key
  }

  ghost function KeysOf(fs: seq<Field>): set<Key> {
    set f | f in fs :: f.key
  }

  ghost predicate AreRead(acc: Acc, fs: seq<Field>, r: Result<Acc>) {
    && r.Ok? && r.value.seen == acc.seen + KeysOf(fs)
    && (forall f :: f in fs ==> Agrees(r.value.rec, f))
    && (forall g: Field :: g.key !in KeysOf(fs) && Agrees(acc.rec, g) ==> Agrees(r.value.rec, g))
  }

  lemma AreReadMore(acc: Acc, f: Field, rest: seq<Field>, r: Result<Acc>)
    requires Storable(f) && f.key !in KeysOf(rest)
    requires AreRead(Stored(acc, f), rest, r)
    ensures AreRead(acc, [f] + rest, r)
  {
    StoreAgrees(acc.rec, f);
    assert KeysOf([f] + rest) == {f.key} + KeysOf(rest) by {
      assert forall g :: g in [f] + rest <==> g == f || g in rest;
    }
  }

  /** Fields of different keys can be read in any order, after anything. */
  lemma {:induction false} FieldsAreRead(acc: Acc, fs: seq<Field>)
    requires Distinct(fs) && forall f :: f in fs ==> Storable(f)
    ensures AreRead(acc, fs, AddLines(acc, LinesOf(fs)))
    decreases |fs|
  {
    if fs == [] {
      assert KeysOf(fs) == {};
    } else {
      var f, rest := fs[0], fs[1..];
      assert fs == [f] + rest;
      FieldsAreRead(Stored(acc, f), rest);
      FirstIsAdded(acc, fs);
      AreReadMore(acc, f, rest, AddLines(acc, LinesOf(fs)));
    }
  }

  lemma FirstIsAdded(acc: Acc, fs: seq<Field>)
    requires fs != [] && Storable(fs[0])
    ensures AddLines(acc, LinesOf(fs)) == AddLines(Stored(acc, fs[0]), LinesOf(fs[1..]))
  {
    AddKnown(acc, fs[0]);
    assert LinesOf(fs)[1..] == LinesOf(fs[1..]);
  }

  predicate ValidRecord(a: TxtRecord) {
    && a.txtVersion == VERSION && HasPrefix(a.proto, PROTO_PREFIX) && IsIpVersion(a.ipVersion)
    && IsPkHash(a.pubHash) && 0 < a.port <= 65535
  }

  /** The fields of a record, each once, in whatever order. */
  ghost predicate Spells(fs: seq<Field>, a: TxtRecord) {
    Distinct(fs) && forall f :: f in fs <==> f in Announcement(a)
  }

  lemma AnnouncedIsStorable(a: TxtRecord)
    requires 0 < a.port <= 65535
    ensures forall f :: f in Announcement(a) ==> Storable(f)
  {
    ParseIntOfItoa(a.port);
    EscapeRoundTrip(a.deviceName);
  }

  lemma SpelledFields(fs: seq<Field>, a: TxtRecord)
    requires Spells(fs, a) && 0 < a.port <= 65535
    ensures forall f :: f in fs ==> Storable(f)
    ensures forall k :: k in KeysOf(fs)
  {
    AnnouncedIsStorable(a);
    var an := Announcement(a);
    assert an[0] in fs && an[1] in fs && an[2] in fs && an[3] in fs && an[4] in fs && an[5] in fs && an[6] in fs;
    forall k ensures k in KeysOf(fs) {
      match k
      case TxtVer => assert an[0].key == k;
      case Proto => assert an[1].key == k;
      case Platform => assert an[2].key == k;
      case Port => assert an[3].key == k;
      case PkHash => assert an[4].key == k;
      case DeviceName => assert an[5].key == k;
      case IpVer => assert an[6].key == k;
    }
  }

  lemma AgreeingIsEqual(rec: TxtRecord, a: TxtRecord)
    requires 0 < a.port <= 65535 && forall f :: f in Announcement(a) ==> Agrees(rec, f)
    ensures rec == a
  {
    ParseIntOfItoa(a.port);
    EscapeRoundTrip(a.deviceName);
    var an := Announcement(a);
    assert Agrees(rec, an[0]) && Agrees(rec, an[1]) && Agrees(rec, an[2]) && Agrees(rec, an[3]);
    assert Agrees(rec, an[4]) && Agrees(rec, an[5]) && Agrees(rec, an[6]);
  }

  /** A record spelled out in any order is read back exactly if it is valid. */
  lemma AnyOrderIsRead(fs: seq<Field>, a: TxtRecord)
    requires Spells(fs, a) && 0 < a.port <= 65535
    ensures Parsed(LinesOf(fs)) == Ok(a) <==> ValidRecord(a)
  {
    SpelledFields(fs, a);
    FieldsAreRead(EMPTY, fs);
    var acc := AddLines(EMPTY, LinesOf(fs)).value;
    AgreeingIsEqual(acc.rec, a);
    CheckedIff(acc);
  }

  lemma CheckedIff(acc: Acc)
    requires (forall k :: k in acc.seen) && 0 < acc.rec.port <= 65535
    ensures Checked(acc) == Ok(acc.rec) <==> ValidRecord(acc.rec)
  {
  }

  lemma AnnouncementSpells(a: TxtRecord)
    ensures Spells(Announcement(a), a)
  {
  }

  /** An announcement is read back, field by field and for every device name, exactly if the identity's
      hash is 32 lowercase hexadecimal digits; building it checks only that it is not empty. */
  lemma AnnouncementRoundTripIff(port: int, deviceName: Bytes, pubHash: Bytes, platform: Bytes, ipVer: Bytes)
    requires BuildTXT(port, deviceName, pubHash, platform, ipVer).Lines?
    ensures var lines := BuildTXT(port, deviceName, pubHash, platform, ipVer).lines;
            Parsed(lines) == Ok(Own(port, deviceName, pubHash, platform, ipVer)) <==> IsPkHash(pubHash)
  {
    var a := Own(port, deviceName, pubHash, platform, ipVer);
    AnnouncementSpells(a);
    AnyOrderIsRead(Announcement(a), a);
    assert PROTO_VERSION[..6] == PROTO_PREFIX;
  }

  /** A hash of one digit is announced and refused by every reader. */
  lemma ShortHashIsRefused(deviceName: Bytes)
    ensures var built := BuildTXT(1, deviceName, [48], [], Ascii("4"));
            built.Lines? && Parsed(built.lines) != Ok(Own(1, deviceName, [48], [], Ascii("4")))
  {
    AnnouncementRoundTripIff(1, deviceName, [48], [], Ascii("4"));
  }

  // ---- every list of lines ----

  function ValOf(line: Bytes): Bytes {
    line[IndexByte(line, EQUALS) + 1..]
  }

  /** The value of the last line with this key. */
  function LastVal(lines: seq<Bytes>, k: Key): Option<Bytes> {
    if lines == [] then None
    else
      var last := lines[|lines| - 1];
      if KeyOfLine(last) == Some(k) then Some(ValOf(last)) else LastVal(lines[..|lines| - 1], k)
  }

  /** A line that stops the parser, if it is not so: a port that is no number, a name that is not encoded. */
  predicate Readable(line: Bytes) {
    && (KeyOfLine(line) == Some(Port) ==> ParseInt(ValOf(line)).Some?)
    && (KeyOfLine(line) == Some(DeviceName) ==> QueryUnescape(ValOf(line)).Some?)
  }

  predicate Holds(field: Bytes, v: Option<Bytes>) {
    field == if v.Some? then v.value else []
  }

  /** The record's field for a key, given the last value of that key. */
  predicate FieldIs(rec: TxtRecord, k: Key, v: Option<Bytes>) {
    match k
    case TxtVer => Holds(rec.txtVersion, v)
    case Proto => Holds(rec.proto, v)
    case Platform => Holds(rec.platform, v)
    case Port => v.Some? ==> ParseInt(v.value) == Some(rec.port)
    case PkHash => Holds(rec.pubHash, v)
    case DeviceName => NameIs(rec.deviceName, v)
    case IpVer => Holds(rec.ipVersion, v)
  }

  ghost predicate Gathered(lines: seq<Bytes>, acc: Acc) {
    forall k :: (k in acc.seen <==> LastVal(lines, k).Some?) && FieldIs(acc.rec, k, LastVal(lines, k))
  }

  /** A record without a name has the empty one. */
  predicate NameIs(name: Bytes, v: Option<Bytes>) {
    if v.None? then name == [] else QueryUnescape(v.value) == Some(name)
  }

  lemma LastValMore(lines: seq<Bytes>, line: Bytes, k: Key)
    ensures LastVal(lines + [line], k) == if KeyOfLine(line) == Some(k) then Some(ValOf(line)) else LastVal(lines, k)
  {
    assert (lines + [line])[..|lines|] == lines;
  }

  lemma FieldStored(rec: TxtRecord, k: Key, val: Bytes, other: Key, v: Option<Bytes>)
    requires Store(rec, k, val).Ok? && FieldIs(rec, other, v)
    ensures FieldIs(Store(rec, k, val).value, other, if other == k then Some(val) else v)
  {
  }

  lemma GatheredMore(lines: seq<Bytes>, line: Bytes, acc: Acc)
    requires Gathered(lines, acc)
    ensures AddLine(acc, line).Ok? <==> Readable(line)
    ensures AddLine(acc, line).Ok? ==> Gathered(lines + [line], AddLine(acc, line).value)
  {
    if AddLine(acc, line).Ok? {
      var next := AddLine(acc, line).value;
      forall k ensures (k in next.seen <==> LastVal(lines + [line], k).Some?) && FieldIs(next.rec, k, LastVal(lines + [line], k)) {
        LastValMore(lines, line, k);
        var key := KeyOfLine(line);
        if key.Some? { FieldStored(acc.rec, key.value, ValOf(line), k, LastVal(lines, k)); }
      }
    }
  }

  lemma {:induction false} LinesAreGathered(lines: seq<Bytes>)
    ensures AddLines(EMPTY, lines).Ok? <==> forall i :: 0 <= i < |lines| ==> Readable(lines[i])
    ensures AddLines(EMPTY, lines).Ok? ==> Gathered(lines, AddLines(EMPTY, lines).value)
  {
    if lines != [] {
      var front, last := lines[..|lines| - 1], lines[|lines| - 1];
      assert lines == front + [last];
      LinesAreGathered(front);
      AddLinesAppend(EMPTY, front, [last]);
      if AddLines(EMPTY, front).Ok? {
        AddOne(AddLines(EMPTY, front).value, last);
        GatheredMore(front, last, AddLines(EMPTY, front).value);
      }
    }
  }

  /** What the lines must say, key by key; only the device name may be missing. */
  predicate Says(lines: seq<Bytes>, rec: TxtRecord) {
    && LastVal(lines, TxtVer) == Some(rec.txtVersion) && rec.txtVersion == Ascii("1")
    && LastVal(lines, Proto) == Some(rec.proto) && HasPrefix(rec.proto, Ascii("lanos/"))
    && LastVal(lines, Platform) == Some(rec.platform)
    && LastVal(lines, Port).Some? && ParseInt(LastVal(lines, Port).value) == Some(rec.port) && 1 <= rec.port <= 65535
    && LastVal(lines, PkHash) == Some(rec.pubHash) && IsPkHash(rec.pubHash)
    && LastVal(lines, IpVer) == Some(rec.ipVersion) && rec.ipVersion in [Ascii("4"), Ascii("6"), Ascii("46")]
    && NameIs(rec.deviceName, LastVal(lines, DeviceName))
  }

  lemma CheckedSays(lines: seq<Bytes>, acc: Acc, rec: TxtRecord)
    requires Gathered(lines, acc)
    ensures Checked(acc) == Ok(rec) <==> Says(lines, rec)
  {
    assert FieldIs(acc.rec, TxtVer, LastVal(lines, TxtVer)) && FieldIs(acc.rec, Proto, LastVal(lines, Proto));
    assert FieldIs(acc.rec, Platform, LastVal(lines, Platform)) && FieldIs(acc.rec, Port, LastVal(lines, Port));
    assert FieldIs(acc.rec, PkHash, LastVal(lines, PkHash)) && FieldIs(acc.rec, IpVer, LastVal(lines, IpVer));
    assert FieldIs(acc.rec, DeviceName, LastVal(lines, DeviceName));
  }

  /** Exactly which announcements are read, and as what: of lines with one key the last counts, and a line with an
      unreadable port or name is never forgiven. */
  lemma ParsedIff(lines: seq<Bytes>, rec: TxtRecord)
    ensures Parsed(lines) == Ok(rec) <==> (forall i :: 0 <= i < |lines| ==> Readable(lines[i])) && Says(lines, rec)
  {
    LinesAreGathered(lines);
    if AddLines(EMPTY, lines).Ok? {
      CheckedSays(lines, AddLines(EMPTY, lines).value, rec);
    }
  }

  /** What can be announced. */
  lemma BuiltIff(port: int, deviceName: Bytes, pubHash: Bytes, platform: Bytes, ipVer: Bytes)
    ensures BuildTXT(port, deviceName, pubHash, platform, ipVer).Lines? <==>
            ipVer in [Ascii("4"), Ascii("6"), Ascii("46")] && 1 <= port <= 65535 && pubHash != []
  {
  }

  /** The announcement as it is written. */
  lemma AnnouncementLines(port: int, deviceName: Bytes, pubHash: Bytes, platform: Bytes, ipVer: Bytes)
    requires BuildTXT(port, deviceName, pubHash, platform, ipVer).Lines?
    ensures var lines := BuildTXT(port, deviceName, pubHash, platform, ipVer).lines;
            && |lines| == 7
            && lines[0] == Ascii("txt-ver=") + Ascii("1") && lines[1] == Ascii("proto=") + Ascii("lanos/1.0")
            && lines[2] == Ascii("platform=") + platform && lines[3] == Ascii("port=") + Itoa(port)
            && lines[4] == Ascii("pk-hash=") + pubHash && lines[5] == Ascii("device-name=") + QueryEscape(deviceName)
            && lines[6] == Ascii("ip-ver=") + ipVer
  {
    KeysAsWritten();
    var fs := Announcement(Own(port, deviceName, pubHash, platform, ipVer));
    LinesOfAt(fs);
  }

  lemma KeysAsWritten()
    ensures KeyText(TxtVer) + [EQUALS] == Ascii("txt-ver=") && KeyText(Proto) + [EQUALS] == Ascii("proto=")
    ensures KeyText(Platform) + [EQUALS] == Ascii("platform=") && KeyText(Port) + [EQUALS] == Ascii("port=")
    ensures KeyText(PkHash) + [EQUALS] == Ascii("pk-hash=") && KeyText(DeviceName) + [EQUALS] == Ascii("device-name=")
    ensures KeyText(IpVer) + [EQUALS] == Ascii("ip-ver=")
  {
  }

  lemma {:induction false} LinesOfAt(fs: seq<Field>)
    ensures |LinesOf(fs)| == |fs| && forall i :: 0 <= i < |fs| ==> LinesOf(fs)[i] == Line(fs[i])
  {
    if fs != [] { LinesOfAt(fs[1..]); }
  }
}
