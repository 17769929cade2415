/** Dial addresses as text: host, zone and port. */
module AddrText {
  import opened Bytes
  import opened Text

  const LBRACKET: byte := 91
  const RBRACKET: byte := 93

  datatype HostPort = HostPort(ip: Bytes, zone: Bytes, port: nat)

  // ---- ports ----

  const MAX_PORT := 65535

  /** A port is a decimal number that fits 16 bits; it may have leading zeros but no sign. */
  function ParsePort(s: Bytes): Option<nat> {
    var n := ParseDigits(s);
    if n.Some? && n.value <= MAX_PORT then n else None
  }

  /** Reading on can only make the number larger, so the loop may give up early. */
  lemma {:induction false} PrefixIsSmaller(s: Bytes, k: nat)
    requires 0 < k <= |s| && ParseDigits(s).Some?
    ensures ParseDigits(s[..k]).Some? && ParseDigits(s[..k]).value <= ParseDigits(s).value
  {
    if k < |s| {
      PrefixIsSmaller(s[..|s| - 1], k);
      assert s[..|s| - 1][..k] == s[..k];
    } else {
      assert s[..k] == s;
    }
  }

  method ReadPort(s: Bytes) returns (r: Option<nat>)
    ensures r == ParsePort(s)
  {
    if s == [] { return None; }
    var n: nat := 0;
    var i := 0;
    while i < |s|
      invariant 0 <= i <= |s| && n <= MAX_PORT
      invariant i > 0 ==> ParseDigits(s[..i]) == Some(n)
      invariant i == 0 ==> n == 0
    {
      assert s[..i + 1][..i] == s[..i] && s[..i + 1][i] == s[i];
      if !IsDigit(s[i]) {
        if ParseDigits(s).Some? { PrefixIsSmaller(s, i + 1); }
        return None;
      }
      n := n * 10 + (s[i] - 48);
      if n > MAX_PORT {
        if ParseDigits(s).Some? { PrefixIsSmaller(s, i + 1); }
        return None;
      }
      i := i + 1;
    }
    assert s[..i] == s;
    return Some(n);
  }

  // ---- splitting ----

  function SplitZone(s: Bytes): (Bytes, Bytes) {
    var i := IndexByte(s, PERCENT);
    if i >= 0 then (s[..i], s[i + 1..]) else (s, [])
  }

  /** The standard library's split of text that does not start with a bracket. */
  function LibrarySplit(s: Bytes): Option<(Bytes, Bytes)> {
    var i := IndexByte(s, COLON);
    if i < 0 || COLON in s[i + 1..] || LBRACKET in s || RBRACKET in s then None
    else Some((s[..i], s[i + 1..]))
  }

  function WithPort(host: Bytes, port: Bytes): Option<HostPort> {
    var (ip, zone) := SplitZone(host);
    var p := ParsePort(port);
    if p.None? then None else Some(HostPort(ip, zone, p.value))
  }

  /** A bracketed host without a port loses its zone. */
  function SplitBracketed(s: Bytes): Option<HostPort>
    requires s != [] && s[0] == LBRACKET
  {
    var end := IndexByte(s, RBRACKET);
    if end <= 0 then None
    else
      var host, rest := s[1..end], s[end + 1..];
      if rest == [] then Some(HostPort(SplitZone(host).0, [], 0))
      else if rest[0] != COLON then None
      else WithPort(host, rest[1..])
  }

  function SplitHostPort(raw: Bytes): Option<HostPort> {
    var s := Trim(raw);
    if s == [] then None
    else if s[0] == LBRACKET then SplitBracketed(s)
    else
      var parts := LibrarySplit(s);
      if parts.Some? then WithPort(parts.value.0, parts.value.1)
      else var (ip, zone) := SplitZone(s); Some(HostPort(ip, zone, 0))
  }

  // ---- joining ----

  function HostText(ip: Bytes, zone: Bytes): Bytes {
    if zone == [] then ip else ip + [PERCENT] + zone
  }

  function JoinHostPort(ip: Bytes, isV4: bool, zone: Bytes, port: nat): Bytes {
    if port == 0 then (if isV4 then ip else HostText(ip, zone))
    else if isV4 then ip + [COLON] + Digits(port)
    else [LBRACKET] + HostText(ip, zone) + [RBRACKET] + [COLON] + Digits(port)
  }

  /** What net.IP's text can look like. */
  predicate IsV4Text(s: Bytes) {
    s != [] && forall i :: 0 <= i < |s| ==> IsDigit(s[i]) || s[i] == DOT
  }

  predicate IsV6Text(s: Bytes) {
    && |s| >= 2 && (forall i :: 0 <= i < |s| ==> IsDigit(s[i]) || 97 <= s[i] <= 102 || s[i] == DOT || s[i] == COLON)
    && IndexByte(s, COLON) >= 0 && COLON in s[IndexByte(s, COLON) + 1..]
  }

  lemma ZoneOfHost(ip: Bytes, zone: Bytes)
    requires PERCENT !in ip
    ensures SplitZone(HostText(ip, zone)) == (ip, zone)
  {
    if zone != [] { IndexIsFirst(ip, PERCENT, zone); }
  }

  lemma PortOfDigits(port: nat)
    requires port <= MAX_PORT
    ensures ParsePort(Digits(port)) == Some(port)
  {
    ParseDigitsOfDigits(port);
  }

  lemma NoEdgeSpaceByEnds(s: Bytes)
    requires s != [] && 32 < s[0] < 128 && 32 < s[|s| - 1] < 128
    ensures Trim(s) == s
  {
    TrimKeepsIff(s);
  }

  lemma SplitV4(ip: Bytes, port: Bytes)
    requires IsV4Text(ip) && forall i :: 0 <= i < |port| ==> IsDigit(port[i])
    ensures LibrarySplit(ip + [COLON] + port) == Some((ip, port))
    ensures LibrarySplit(ip).None?
  {
    IndexIsFirst(ip, COLON, port);
    var s := ip + [COLON] + port;
    assert forall b :: b in s ==> b == COLON || b == DOT || IsDigit(b);
  }

  lemma V4RoundTrip(ip: Bytes, zone: Bytes, port: nat)
    requires IsV4Text(ip) && port <= MAX_PORT
    ensures SplitHostPort(JoinHostPort(ip, true, zone, port)) == Some(HostPort(ip, [], port))
  {
    var s := JoinHostPort(ip, true, zone, port);
    NoEdgeSpaceByEnds(s);
    assert PERCENT !in ip;
    assert SplitZone(ip) == (ip, []);
    SplitV4(ip, Digits(port));
    assert s[0] == ip[0];
    PortOfDigits(port);
  }

  lemma BracketedSplit(host: Bytes, port: nat)
    requires RBRACKET !in host && 0 < port <= MAX_PORT
    ensures SplitBracketed([LBRACKET] + host + [RBRACKET] + [COLON] + Digits(port)) ==
            Some(HostPort(SplitZone(host).0, SplitZone(host).1, port))
  {
    var s := [LBRACKET] + host + [RBRACKET] + [COLON] + Digits(port);
    assert s == ([LBRACKET] + host) + [RBRACKET] + ([COLON] + Digits(port));
    IndexIsFirst([LBRACKET] + host, RBRACKET, [COLON] + Digits(port));
    assert s[1..|host| + 1] == host;
    assert ([COLON] + Digits(port))[1..] == Digits(port);
    PortOfDigits(port);
  }

  lemma ZoneOfBracketed(host: Bytes, rest: Bytes)
    requires RBRACKET !in host
    ensures var r := SplitBracketed([LBRACKET] + host + [RBRACKET] + rest);
            r.Some? ==> r.value.zone == [] || r.value.zone == SplitZone(host).1
  {
    var s := [LBRACKET] + host + [RBRACKET] + rest;
    IndexIsFirst([LBRACKET] + host, RBRACKET, rest);
    assert s[1..|host| + 1] == host;
  }

  /** A zone with a closing bracket ends the host too early. */
  lemma BracketInZone(ip: Bytes, zone: Bytes, rest: Bytes)
    requires PERCENT !in ip && RBRACKET !in ip && RBRACKET in zone
    ensures var r := SplitBracketed([LBRACKET] + HostText(ip, zone) + [RBRACKET] + rest);
            r.Some? ==> r.value.zone != zone
  {
    var k := IndexByte(zone, RBRACKET);
    var host := ip + [PERCENT] + zone[..k];
    var after := zone[k + 1..] + [RBRACKET] + rest;
    assert zone == zone[..k] + [RBRACKET] + zone[k + 1..];
    assert [LBRACKET] + HostText(ip, zone) + [RBRACKET] + rest == [LBRACKET] + host + [RBRACKET] + after;
    IndexIsFirst(ip, PERCENT, zone[..k]);
    assert RBRACKET !in zone[..k];
    ZoneOfBracketed(host, after);
    assert |SplitZone(host).1| < |zone|;
  }

  /** With a port, the text gives the address and zone back exactly for zones without a bracket. */
  lemma V6RoundTripIff(ip: Bytes, zone: Bytes, port: nat)
    requires IsV6Text(ip) && 0 < port <= MAX_PORT
    ensures SplitHostPort(JoinHostPort(ip, false, zone, port)) == Some(HostPort(ip, zone, port)) <==> RBRACKET !in zone
  {
    var s := JoinHostPort(ip, false, zone, port);
    var host := HostText(ip, zone);
    NoEdgeSpaceByEnds(s);
    assert s[0] == LBRACKET;
    if RBRACKET in zone {
      Associate([LBRACKET] + host + [RBRACKET], [COLON], Digits(port));
      BracketInZone(ip, zone, [COLON] + Digits(port));
    } else {
      assert RBRACKET !in host;
      BracketedSplit(host, port);
      ZoneOfHost(ip, zone);
    }
  }

  lemma BareIsNotSplit(ip: Bytes, rest: Bytes)
    requires IsV6Text(ip)
    ensures LibrarySplit(ip + rest).None?
  {
    var s := ip + rest;
    var i := IndexByte(ip, COLON);
    var j :| 0 <= j < |ip| - i - 1 && ip[i + 1..][j] == COLON;
    assert forall k :: 0 <= k <= i ==> s[k] == ip[k];
    assert s[i + 1..][j] == COLON;
  }

  lemma SplitZoneSize(s: Bytes)
    ensures var (ip, zone) := SplitZone(s);
            |ip| + |zone| <= |s| && (zone != [] ==> |ip| + 1 + |zone| == |s|)
  {
  }

  /** Splitting finds no more than there is. */
  lemma SplitSize(raw: Bytes)
    requires SplitHostPort(raw).Some?
    ensures var hp := SplitHostPort(raw).value;
            hp.zone != [] ==> |hp.ip| + 1 + |hp.zone| <= |Trim(raw)|
  {
    var s := Trim(raw);
    SplitZoneSize(s);
    if s[0] == LBRACKET {
      var end := IndexByte(s, RBRACKET);
      SplitZoneSize(s[1..end]);
    } else if LibrarySplit(s).Some? {
      SplitZoneSize(LibrarySplit(s).value.0);
    }
  }

  /** Without a port, the zone is the rest of the text, so it must not end in white space. */
  lemma V6BareRoundTripIff(ip: Bytes, zone: Bytes)
    requires IsV6Text(ip)
    ensures SplitHostPort(JoinHostPort(ip, false, zone, 0)) == Some(HostPort(ip, zone, 0)) <==> SpaceAtEnd(zone) == 0
  {
    if SpaceAtEnd(zone) == 0 {
      BareText(ip, zone);
      SplitUnsplit(HostText(ip, zone));
      ZoneOfHost(ip, zone);
    } else {
      EndIsLocal(ip, PERCENT, zone);
      var s := HostText(ip, zone);
      TrimShrinks(s);
      if SplitHostPort(s).Some? { SplitSize(s); }
    }
  }

  lemma BareText(ip: Bytes, zone: Bytes)
    requires IsV6Text(ip) && SpaceAtEnd(zone) == 0
    ensures var s := HostText(ip, zone);
            Trim(s) == s && s != [] && s[0] != LBRACKET && LibrarySplit(s).None?
  {
    EdgeOfBare(ip, zone);
    TrimKeepsIff(HostText(ip, zone));
    HostStart(ip, zone);
    BareHostIsNotSplit(ip, zone);
  }

  lemma HostStart(ip: Bytes, zone: Bytes)
    requires ip != []
    ensures HostText(ip, zone) != [] && HostText(ip, zone)[0] == ip[0]
  {
  }

  lemma BareHostIsNotSplit(ip: Bytes, zone: Bytes)
    requires IsV6Text(ip)
    ensures LibrarySplit(HostText(ip, zone)).None?
  {
    if zone == [] {
      BareIsNotSplit(ip, []);
      assert ip + [] == ip;
    } else {
      BareIsNotSplit(ip, [PERCENT] + zone);
      Associate(ip, [PERCENT], zone);
    }
  }

  lemma SplitUnsplit(s: Bytes)
    requires Trim(s) == s && s != [] && s[0] != LBRACKET && LibrarySplit(s).None?
    ensures SplitHostPort(s) == Some(HostPort(SplitZone(s).0, SplitZone(s).1, 0))
  {
  }

  lemma EdgeOfBare(ip: Bytes, zone: Bytes)
    requires IsV6Text(ip) && SpaceAtEnd(zone) == 0
    ensures NoEdgeSpace(HostText(ip, zone))
  {
    NoEdgeSpaceByEnds(ip);
    TrimKeepsIff(ip);
    if zone != [] {
      StartIsLocal(ip, PERCENT, zone);
      EndIsLocal(ip, PERCENT, zone);
    }
  }

  // ---- texts that are not written by the program ----

  /** Zeros may lead, but there is no sign, and the number fits in 16 bits. */
  lemma ParsePortIff(s: Bytes, n: nat)
    ensures ParsePort(s) == Some(n) <==> n <= 65535 && exists k: nat :: s == DigitsAfter(k, n)
  {
    if ParsePort(s) == Some(n) {
      var k := ParsedIsNumeral(s);
    }
    if n <= 65535 && exists k: nat :: s == DigitsAfter(k, n) {
      var k: nat :| s == DigitsAfter(k, n);
      NumeralIsParsed(k, n);
    }
  }

  /** Brackets without a port: the host is read, its zone is not. */
  lemma BracketsWithoutPort(ip: Bytes, zone: Bytes)
    requires IsV6Text(ip) && RBRACKET !in zone
    ensures SplitHostPort([LBRACKET] + HostText(ip, zone) + [RBRACKET]) == Some(HostPort(ip, [], 0))
  {
    var host := HostText(ip, zone);
    var s := [LBRACKET] + host + [RBRACKET];
    NoEdgeSpaceByEnds(s);
    assert RBRACKET !in host;
    assert s == ([LBRACKET] + host) + [RBRACKET] + [];
    IndexIsFirst([LBRACKET] + host, RBRACKET, []);
    assert s[1..|host| + 1] == host;
    ZoneOfHost(ip, zone);
  }

  /** A port that is none is refused, with and without brackets. */
  lemma BadPortIsRefused(ip: Bytes, port: Bytes)
    requires ParsePort(port).None? && port != [] && 32 < port[|port| - 1] < 128
    requires COLON !in port && LBRACKET !in port && RBRACKET !in port
    ensures IsV4Text(ip) ==> SplitHostPort(ip + [COLON] + port).None?
    ensures IsV6Text(ip) ==> SplitHostPort([LBRACKET] + ip + [RBRACKET] + [COLON] + port).None?
  {
    if IsV4Text(ip) { BadPortOfV4(ip, port); }
    if IsV6Text(ip) { BadPortOfV6(ip, port); }
  }

  lemma BadPortOfV4(ip: Bytes, port: Bytes)
    requires ParsePort(port).None? && port != [] && 32 < port[|port| - 1] < 128
    requires COLON !in port && LBRACKET !in port && RBRACKET !in port && IsV4Text(ip)
    ensures SplitHostPort(ip + [COLON] + port).None?
  {
    var s := ip + [COLON] + port;
    assert s[0] == ip[0] && s[|s| - 1] == port[|port| - 1];
    NoEdgeSpaceByEnds(s);
    SplitAtColon(ip, port);
  }

  lemma SplitAtColon(ip: Bytes, port: Bytes)
    requires IsV4Text(ip) && COLON !in port && LBRACKET !in port && RBRACKET !in port
    ensures LibrarySplit(ip + [COLON] + port) == Some((ip, port))
  {
    IndexIsFirst(ip, COLON, port);
    forall b | b in ip + [COLON] + port ensures b != LBRACKET && b != RBRACKET {
      assert b in ip || b == COLON || b in port;
    }
  }

  lemma BadPortOfV6(ip: Bytes, port: Bytes)
    requires ParsePort(port).None? && port != [] && 32 < port[|port| - 1] < 128 && IsV6Text(ip)
    ensures SplitHostPort([LBRACKET] + ip + [RBRACKET] + [COLON] + port).None?
  {
    var s := [LBRACKET] + ip + [RBRACKET] + [COLON] + port;
    assert s[|s| - 1] == port[|port| - 1];
    NoEdgeSpaceByEnds(s);
    assert s == ([LBRACKET] + ip) + [RBRACKET] + ([COLON] + port);
    IndexIsFirst([LBRACKET] + ip, RBRACKET, [COLON] + port);
    assert ([COLON] + port)[1..] == port;
  }
}
