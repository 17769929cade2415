/** IP addresses as bytes: their scope, the policy table, and how many leading bits two of them share. */
module Address {
  import opened Bytes

  type Octets = seq<bv8>

  /** net.IP holds 4 or 16 bytes. */
  type Ip = s: Octets | |s| == 4 || |s| == 16 witness [0, 0, 0, 0]

  const V4_IN_V6: Octets := [0, 0, 0, 0, 0, 0, 0, 0, 0, 0, 0xff, 0xff]
  const V6_LOOPBACK: Octets := [0, 0, 0, 0, 0, 0, 0, 0, 0, 0, 0, 0, 0, 0, 0, 1]
  const V6_UNSPECIFIED: Octets := [0, 0, 0, 0, 0, 0, 0, 0, 0, 0, 0, 0, 0, 0, 0, 0]

  function To4(ip: Ip): (v4: Option<Ip>)
    ensures v4.Some? ==> |v4.value| == 4
  {
    if |ip| == 4 then Some(ip)
    else if ip[..12] == V4_IN_V6 then Some(ip[12..])
    else None
  }

  function To16(ip: Ip): (v6: Ip)
    ensures |v6| == 16
  {
    if |ip| == 16 then ip else V4_IN_V6 + ip
  }

  predicate IsV6(ip: Ip) {
    To4(ip).None?
  }

  predicate IsLoopback(ip: Ip) {
    if IsV6(ip) then ip == V6_LOOPBACK else To4(ip).value[0] == 127
  }

  predicate IsUnspecified(ip: Ip) {
    if IsV6(ip) then ip == V6_UNSPECIFIED else To4(ip).value == [0, 0, 0, 0]
  }

  predicate IsMulticast(ip: Ip) {
    if IsV6(ip) then ip[0] == 0xff else To4(ip).value[0] & 0xf0 == 0xe0
  }

  predicate IsInterfaceLocalMulticast(ip: Ip) {
    |ip| == 16 && ip[0] == 0xff && ip[1] & 0x0f == 0x01
  }

  predicate IsLinkLocalMulticast(ip: Ip) {
    if IsV6(ip) then ip[0] == 0xff && ip[1] & 0x0f == 0x02
    else To4(ip).value[0] == 224 && To4(ip).value[1] == 0 && To4(ip).value[2] == 0
  }

  predicate IsLinkLocalUnicast(ip: Ip) {
    if IsV6(ip) then ip[0] == 0xfe && ip[1] & 0xc0 == 0x80
    else To4(ip).value[0] == 169 && To4(ip).value[1] == 254
  }

  predicate IsBroadcast(ip: Ip) {
    To4(ip) == Some([0xff, 0xff, 0xff, 0xff])
  }

  predicate IsGlobalUnicast(ip: Ip) {
    !IsBroadcast(ip) && !IsUnspecified(ip) && !IsLoopback(ip) && !IsMulticast(ip) && !IsLinkLocalUnicast(ip)
  }

  datatype Scope = LinkLocal | Loopback | Global | OtherScope

  function ScopeOf(ip: Ip): Scope {
    if IsLoopback(ip) then Loopback
    else if IsLinkLocalUnicast(ip) || IsLinkLocalMulticast(ip) then LinkLocal
    else if IsGlobalUnicast(ip) then Global
    else OtherScope
  }

  // ---- leading bits ----

  function Mask(k: nat): bv8
    requires k < 8
  {
    if k == 0 then 0x80 else if k == 1 then 0x40 else if k == 2 then 0x20 else if k == 3 then 0x10
    else if k == 4 then 0x08 else if k == 5 then 0x04 else if k == 6 then 0x02 else 0x01
  }

  /** Bit i of an address, the most significant bit of the first byte being bit 0. */
  predicate Bit(s: Octets, i: nat)
    requires i < 8 * |s|
  {
    s[i / 8] & Mask(i % 8) != 0
  }

  ghost predicate Agree(a: Octets, b: Octets, n: nat)
    requires |a| == |b|
  {
    n <= 8 * |a| && forall k :: 0 <= k < n ==> Bit(a, k) == Bit(b, k)
  }

  /** How many bits from i on a and b have in common before the first difference. */
  function Leading(a: Octets, b: Octets, i: nat): (n: nat)
    requires |a| == |b| && i <= 8 * |a|
    ensures i + n <= 8 * |a|
    decreases 8 * |a| - i
  {
    if i < 8 * |a| && Bit(a, i) == Bit(b, i) then 1 + Leading(a, b, i + 1) else 0
  }

  lemma {:induction false} LeadingFrom(a: Octets, b: Octets, i: nat, m: nat)
    requires |a| == |b| && i <= m <= 8 * |a|
    ensures i + Leading(a, b, i) >= m <==> forall k :: i <= k < m ==> Bit(a, k) == Bit(b, k)
    decreases m - i
  {
    if i < m {
      LeadingFrom(a, b, i + 1, m);
    }
  }

  /** What the count means. */
  lemma LeadingAtLeastIff(a: Octets, b: Octets, m: nat)
    requires |a| == |b|
    ensures Leading(a, b, 0) >= m <==> Agree(a, b, m)
  {
    if m <= 8 * |a| { LeadingFrom(a, b, 0, m); }
  }

  lemma LeadingSymmetric(a: Octets, b: Octets)
    requires |a| == |b|
    ensures Leading(a, b, 0) == Leading(b, a, 0)
  {
    var n, m := Leading(a, b, 0), Leading(b, a, 0);
    LeadingAtLeastIff(a, b, n);
    LeadingAtLeastIff(b, a, n);
    LeadingAtLeastIff(a, b, m);
    LeadingAtLeastIff(b, a, m);
  }

  lemma AgreeTransitive(a: Octets, b: Octets, c: Octets)
    requires |a| == |b| == |c|
    ensures var x, y := Leading(a, b, 0), Leading(b, c, 0);
            Leading(a, c, 0) >= if x < y then x else y
  {
    var x, y := Leading(a, b, 0), Leading(b, c, 0);
    var m := if x < y then x else y;
    LeadingAtLeastIff(a, b, m);
    LeadingAtLeastIff(b, c, m);
    LeadingAtLeastIff(a, c, m);
  }

  /** Of the three pairs among a, b and c, the two that agree least agree equally far. */
  lemma Ultrametric(a: Octets, b: Octets, c: Octets)
    requires |a| == |b| == |c|
    ensures var x, y, z := Leading(a, b, 0), Leading(b, c, 0), Leading(a, c, 0);
            z >= (if x < y then x else y) && (x != y ==> z == if x < y then x else y)
  {
    LeadingSymmetric(b, c);
    LeadingSymmetric(a, b);
    AgreeTransitive(a, b, c);
    AgreeTransitive(a, c, b);
    AgreeTransitive(b, a, c);
  }

  // ---- bytes and bits ----

  /** The first n bits of d are zero. */
  predicate Clear(d: bv8, n: nat) {
    && (n > 0 ==> d & 0x80 == 0) && (n > 1 ==> d & 0x40 == 0) && (n > 2 ==> d & 0x20 == 0) && (n > 3 ==> d & 0x10 == 0)
    && (n > 4 ==> d & 0x08 == 0) && (n > 5 ==> d & 0x04 == 0) && (n > 6 ==> d & 0x02 == 0) && (n > 7 ==> d & 0x01 == 0)
  }

  lemma AllClear(x: bv8, y: bv8)
    ensures Clear(x ^ y, 8) <==> x == y
  {
  }

  lemma XorShowsDifference(x: bv8, y: bv8, k: nat)
    requires k < 8
    ensures (x ^ y) & Mask(k) == 0 <==> (x & Mask(k) != 0) == (y & Mask(k) != 0)
  {
  }

  lemma ClearOneMore(d: bv8, k: nat)
    requires k < 8
    ensures Clear(d, k + 1) <==> Clear(d, k) && d & Mask(k) == 0
  {
  }

  lemma BitsOfByte(a: Octets, b: Octets, i: nat, k: nat)
    requires |a| == |b| && i < |a| && k < 8
    ensures Bit(a, 8 * i + k) == Bit(b, 8 * i + k) <==> (a[i] ^ b[i]) & Mask(k) == 0
  {
    XorShowsDifference(a[i], b[i], k);
    assert (8 * i + k) / 8 == i && (8 * i + k) % 8 == k;
  }

  /** Agreement on whole bytes, then on some bits of the next one. */
  lemma {:induction false} AgreeInByte(a: Octets, b: Octets, i: nat, k: nat)
    requires |a| == |b| && i < |a| && k <= 8
    ensures Agree(a, b, 8 * i + k) <==> Agree(a, b, 8 * i) && Clear(a[i] ^ b[i], k)
    decreases k
  {
    if k > 0 {
      AgreeInByte(a, b, i, k - 1);
      ClearOneMore(a[i] ^ b[i], k - 1);
      BitsOfByte(a, b, i, k - 1);
    }
  }

  lemma {:induction false} AgreeOnBytesIff(a: Octets, b: Octets, n: nat)
    requires |a| == |b| && n <= |a|
    ensures Agree(a, b, 8 * n) <==> a[..n] == b[..n]
  {
    if n > 0 {
      AgreeOnBytesIff(a, b, n - 1);
      AgreeInByte(a, b, n - 1, 8);
      AllClear(a[n - 1], b[n - 1]);
      assert a[..n] == a[..n - 1] + [a[n - 1]] && b[..n] == b[..n - 1] + [b[n - 1]];
    }
  }

  lemma LeadingIsAllIff(a: Octets, b: Octets)
    requires |a| == |b|
    ensures Leading(a, b, 0) == 8 * |a| <==> a == b
  {
    LeadingAtLeastIff(a, b, 8 * |a|);
    AgreeOnBytesIff(a, b, |a|);
    assert a[..|a|] == a && b[..|b|] == b;
  }

  function Normalize(ip: Ip, v6: bool): Ip {
    if v6 then To16(ip) else if To4(ip).Some? then To4(ip).value else ip
  }

  function CommonPrefix(a: Ip, b: Ip, v6: bool): (n: nat)
    ensures n <= 128
  {
    var x, y := Normalize(a, v6), Normalize(b, v6);
    if |x| != |y| then 0 else Leading(x, y, 0)
  }

  /** Whole bytes first, then the bits of the first byte that differs. */
  method CountCommonPrefix(a: Ip, b: Ip, v6: bool) returns (bits: nat)
    ensures bits == CommonPrefix(a, b, v6)
  {
    var x, y := Normalize(a, v6), Normalize(b, v6);
    if |x| != |y| { return 0; }
    bits := 0;
    var i := 0;
    while i < |x|
      invariant 0 <= i <= |x| && bits == 8 * i && Agree(x, y, bits)
    {
      AllClear(x[i], y[i]);
      if x[i] == y[i] {
        AgreeInByte(x, y, i, 8);
        bits := bits + 8;
        i := i + 1;
      } else {
        var more := BitsInByte(x[i], y[i]);
        AgreeInByte(x, y, i, more);
        AgreeInByte(x, y, i, more + 1);
        bits := bits + more;
        LeadingAtLeastIff(x, y, bits);
        LeadingAtLeastIff(x, y, bits + 1);
        return;
      }
    }
    LeadingAtLeastIff(x, y, bits);
  }

  /** The loop over the mask: how many leading bits two different bytes share. */
  method BitsInByte(x: bv8, y: bv8) returns (bits: nat)
    requires x != y
    ensures bits < 8 && Clear(x ^ y, bits) && !Clear(x ^ y, bits + 1)
  {
    var diff := x ^ y;
    var mask: bv8 := 0x80;
    bits := 0;
    AllClear(x, y);
    while mask != 0
      invariant bits <= 8 && (if bits < 8 then mask == Mask(bits) else mask == 0)
      invariant Clear(diff, bits)
      decreases 8 - bits
    {
      ClearOneMore(diff, bits);
      if diff & mask != 0 { return; }
      bits := bits + 1;
      mask := mask >> 1;
    }
  }

  // ---- the policy table ----

  function Precedence(ip: Ip): nat {
    if To4(ip).Some? then 20
    else if IsLoopback(ip) then 50
    else if ip == V6_UNSPECIFIED then 40
    else if ip[0] & 0xfe == 0xfc then 7
    else if ip[0] == 0x20 && ip[1] == 0x01 && ip[2] == 0 && ip[3] == 0 then 5
    else if ip[0] == 0x20 && ip[1] == 0x02 then 30
    else 40
  }

  datatype Policy = Policy(prefix: Octets, bits: nat, precedence: nat)

  function Zeros(n: nat): (z: Octets)
    ensures |z| == n && forall i :: 0 <= i < n ==> z[i] == 0
  {
    seq(n, i => 0)
  }

  /** The table as it would be written down: ::1/128, ::ffff:0:0/96, 2001::/32, 2002::/16, fc00::/7, ::/0. */
  function Table(): (t: seq<Policy>)
    ensures forall i :: 0 <= i < |t| ==> |t[i].prefix| == 16
  {
    [ Policy(V6_LOOPBACK, 128, 50),
      Policy(V4_IN_V6 + Zeros(4), 96, 20),
      Policy([0x20, 0x01] + Zeros(14), 32, 5),
      Policy([0x20, 0x02] + Zeros(14), 16, 30),
      Policy([0xfc] + Zeros(15), 7, 7),
      Policy(Zeros(16), 0, 40) ]
  }

  predicate Matches(ip: Ip, p: Policy)
    requires |p.prefix| == 16
  {
    Leading(To16(ip), p.prefix, 0) >= p.bits
  }

  lemma MatchesBytesIff(ip: Ip, p: Policy, n: nat)
    requires |p.prefix| == 16 && p.bits == 8 * n && n <= 16
    ensures Matches(ip, p) <==> To16(ip)[..n] == p.prefix[..n]
  {
    LeadingAtLeastIff(To16(ip), p.prefix, 8 * n);
    AgreeOnBytesIff(To16(ip), p.prefix, n);
  }

  lemma MatchesSevenIff(ip: Ip, p: Policy)
    requires |p.prefix| == 16 && p.bits == 7 && p.prefix[0] == 0xfc
    ensures Matches(ip, p) <==> To16(ip)[0] & 0xfe == 0xfc
  {
    var a := To16(ip);
    LeadingAtLeastIff(a, p.prefix, 7);
    AgreeInByte(a, p.prefix, 0, 7);
    SevenBits(a[0]);
  }

  lemma SevenBits(x: bv8)
    ensures Clear(x ^ 0xfc, 7) <==> x & 0xfe == 0xfc
  {
  }

  lemma RowsOfTable(ip: Ip)
    ensures var t, a := Table(), To16(ip);
            && (Matches(ip, t[0]) <==> a == V6_LOOPBACK)
            && (Matches(ip, t[1]) <==> To4(ip).Some?)
            && (Matches(ip, t[2]) <==> a[0] == 0x20 && a[1] == 0x01 && a[2] == 0 && a[3] == 0)
            && (Matches(ip, t[3]) <==> a[0] == 0x20 && a[1] == 0x02)
            && (Matches(ip, t[4]) <==> a[0] & 0xfe == 0xfc)
            && Matches(ip, t[5])
  {
    var t, a := Table(), To16(ip);
    MatchesBytesIff(ip, t[0], 16);
    assert a[..16] == a && t[0].prefix[..16] == V6_LOOPBACK;
    MatchesBytesIff(ip, t[1], 12);
    assert t[1].prefix[..12] == V4_IN_V6;
    MatchesBytesIff(ip, t[2], 4);
    assert a[..4] == [a[0], a[1], a[2], a[3]] && t[2].prefix[..4] == [0x20, 0x01, 0, 0];
    MatchesBytesIff(ip, t[3], 2);
    assert a[..2] == [a[0], a[1]] && t[3].prefix[..2] == [0x20, 0x02];
    MatchesSevenIff(ip, t[4]);
    MatchesBytesIff(ip, t[5], 0);
  }

  predicate BestMatch(ip: Ip, k: nat) {
    && k < |Table()| && Matches(ip, Table()[k])
    && forall i :: 0 <= i < |Table()| && i != k && Matches(ip, Table()[i]) ==> Table()[i].bits < Table()[k].bits
  }

  lemma V4IsNot(a: Octets)
    requires |a| == 16 && a[..12] == V4_IN_V6
    ensures a[0] == 0 && a[10] == 0xff
  {
    assert a[..12][0] == 0 && a[..12][10] == 0xff;
  }

  /** The chain of tests is a longest-prefix lookup in the policy table. */
  lemma PrecedenceIsTheLongestMatch(ip: Ip)
    ensures exists k: nat :: BestMatch(ip, k) && Table()[k].precedence == Precedence(ip)
  {
    var a := To16(ip);
    RowsOfTable(ip);
    var k := if To4(ip).Some? then 1 else if a == V6_LOOPBACK then 0 else if a[0] & 0xfe == 0xfc then 4
             else if a[0] == 0x20 && a[1] == 0x01 && a[2] == 0 && a[3] == 0 then 2
             else if a[0] == 0x20 && a[1] == 0x02 then 3 else 5;
    if To4(ip).Some? {
      assert a[..12] == V4_IN_V6;
      V4IsNot(a);
    }
    assert BestMatch(ip, k);
  }

  /** An IPv4 address means the same in four bytes and in sixteen. */
  lemma FormDoesNotMatter(ip: Ip, other: Ip)
    ensures ScopeOf(To16(ip)) == ScopeOf(ip) && Precedence(To16(ip)) == Precedence(ip) && IsV6(To16(ip)) == IsV6(ip)
    ensures CommonPrefix(To16(ip), other, IsV6(ip)) == CommonPrefix(ip, other, IsV6(ip))
  {
    if |ip| == 4 {
      var six := V4_IN_V6 + ip;
      assert six[..12] == V4_IN_V6 && six[12..] == ip;
      V4IsNot(six);
    }
  }

  // ---- the scopes as blocks of addresses ----

  /** ip lies in the block of this many leading bits, an IPv4 address taken in its sixteen-byte form. */
  predicate Within(ip: Ip, prefix: Octets, bits: nat)
    requires |prefix| == 16
  {
    Leading(To16(ip), prefix, 0) >= bits
  }

  function Block4(a: bv8, b: bv8): (p: Octets)
    ensures |p| == 16
  {
    V4_IN_V6 + [a, b, 0, 0]
  }

  function Block6(a: bv8, b: bv8): (p: Octets)
    ensures |p| == 16
  {
    [a, b] + Zeros(14)
  }

  lemma WithinBytesIff(ip: Ip, prefix: Octets, n: nat)
    requires |prefix| == 16 && n <= 16
    ensures Within(ip, prefix, 8 * n) <==> To16(ip)[..n] == prefix[..n]
  {
    LeadingAtLeastIff(To16(ip), prefix, 8 * n);
    AgreeOnBytesIff(To16(ip), prefix, n);
  }

  lemma WithinBitsIff(ip: Ip, prefix: Octets, n: nat, k: nat)
    requires |prefix| == 16 && n < 16 && k <= 8
    ensures Within(ip, prefix, 8 * n + k) <==> To16(ip)[..n] == prefix[..n] && Clear(To16(ip)[n] ^ prefix[n], k)
  {
    LeadingAtLeastIff(To16(ip), prefix, 8 * n + k);
    AgreeInByte(To16(ip), prefix, n, k);
    AgreeOnBytesIff(To16(ip), prefix, n);
  }

  lemma SomeBits(x: bv8)
    ensures Clear(x ^ 0xe0, 4) <==> x & 0xf0 == 0xe0
    ensures Clear(x ^ 0x80, 2) <==> x & 0xc0 == 0x80
  {
  }

  /** The first bytes of the sixteen-byte form of an IPv4 address, and the ones that follow. */
  lemma FormOfV4(ip: Ip)
    ensures To4(ip).Some? <==> To16(ip)[..12] == V4_IN_V6
    ensures To4(ip).Some? ==> To16(ip) == V4_IN_V6 + To4(ip).value
    ensures To4(ip).None? ==> To16(ip) == ip
  {
    if |ip| == 4 {
      assert To16(ip)[..12] == V4_IN_V6;
    } else {
      assert ip == ip[..12] + ip[12..];
    }
  }

  lemma FrontOfV4(a: Octets, b: Octets, n: nat)
    requires |a| == 16 && |b| == 16 && b[..12] == V4_IN_V6 && 12 <= n <= 16
    ensures a[..n] == b[..n] <==> a[..12] == V4_IN_V6 && a[12..n] == b[12..n]
  {
    assert a[..n] == a[..12] + a[12..n] && b[..n] == b[..12] + b[12..n];
  }

  /** ::ffff:0:0/96. */
  lemma V4Block(ip: Ip)
    ensures IsV6(ip) <==> !Within(ip, Block4(0, 0), 96)
  {
    WithinBytesIff(ip, Block4(0, 0), 12);
    assert Block4(0, 0)[..12] == V4_IN_V6;
    FormOfV4(ip);
  }

  /** 127.0.0.0/8 and ::1. */
  lemma LoopbackBlocks(ip: Ip)
    ensures IsLoopback(ip) <==> Within(ip, Block4(127, 0), 104) || ip == V6_LOOPBACK
  {
    var a, p := To16(ip), Block4(127, 0);
    WithinBytesIff(ip, p, 13);
    assert p[..12] == V4_IN_V6 && p[12..13] == [127];
    FrontOfV4(a, p, 13);
    FormOfV4(ip);
    assert a[12..13] == [a[12]];
    if To4(ip).Some? {
      V4IsNot(a);
      assert To4(ip).value[0] == a[12];
    }
  }

  /** 169.254.0.0/16 and fe80::/10. */
  lemma LinkLocalBlocks(ip: Ip)
    ensures IsLinkLocalUnicast(ip) <==> Within(ip, Block4(169, 254), 112) || Within(ip, Block6(0xfe, 0x80), 10)
  {
    var a, p := To16(ip), Block4(169, 254);
    WithinBytesIff(ip, p, 14);
    assert p[..12] == V4_IN_V6 && p[12..14] == [169, 254];
    FrontOfV4(a, p, 14);
    FormOfV4(ip);
    assert a[12..14] == [a[12], a[13]];
    WithinBitsIff(ip, Block6(0xfe, 0x80), 1, 2);
    assert a[..1] == [a[0]] && Block6(0xfe, 0x80)[..1] == [0xfe];
    SomeBits(a[1]);
    if To4(ip).Some? {
      V4IsNot(a);
      assert To4(ip).value[0] == a[12] && To4(ip).value[1] == a[13];
    }
  }

  /** 224.0.0.0/4 and ff00::/8. */
  lemma MulticastBlocks(ip: Ip)
    ensures IsMulticast(ip) <==> Within(ip, Block4(224, 0), 100) || Within(ip, Block6(0xff, 0), 8)
  {
    var a, p := To16(ip), Block4(224, 0);
    WithinBitsIff(ip, p, 12, 4);
    assert p[..12] == V4_IN_V6 && p[12] == 0xe0;
    FormOfV4(ip);
    WithinBytesIff(ip, Block6(0xff, 0), 1);
    assert a[..1] == [a[0]] && Block6(0xff, 0)[..1] == [0xff];
    SomeBits(a[12]);
    if To4(ip).Some? {
      V4IsNot(a);
      assert To4(ip).value[0] == a[12];
    }
  }

  /** 224.0.0.0/24 and ff02::/16 with any flags. */
  lemma LinkLocalMulticastBlocks(ip: Ip)
    ensures IsLinkLocalMulticast(ip) <==>
            Within(ip, Block4(224, 0), 120) || (Within(ip, Block6(0xff, 0), 8) && To16(ip)[1] & 0x0f == 2)
  {
    var a, p := To16(ip), Block4(224, 0);
    WithinBytesIff(ip, p, 15);
    assert p[..12] == V4_IN_V6 && p[12..15] == [224, 0, 0];
    FrontOfV4(a, p, 15);
    FormOfV4(ip);
    assert a[12..15] == [a[12], a[13], a[14]];
    WithinBytesIff(ip, Block6(0xff, 0), 1);
    assert a[..1] == [a[0]] && Block6(0xff, 0)[..1] == [0xff];
    if To4(ip).Some? {
      V4IsNot(a);
      assert To4(ip).value == a[12..];
    }
  }

  predicate IsNowhere(ip: Ip) {
    To16(ip) in [V6_UNSPECIFIED, V4_IN_V6 + [0, 0, 0, 0], V4_IN_V6 + [0xff, 0xff, 0xff, 0xff]]
  }

  /** The scope of an address by the block it lies in. The unspecified addresses, the broadcast address and multicast
      beyond the link have none of the three. */
  lemma ScopeByBlock(ip: Ip)
    ensures ScopeOf(ip) == Loopback <==> Within(ip, Block4(127, 0), 104) || ip == V6_LOOPBACK
    ensures ScopeOf(ip) == LinkLocal <==>
            || Within(ip, Block4(169, 254), 112) || Within(ip, Block6(0xfe, 0x80), 10)
            || Within(ip, Block4(224, 0), 120) || (Within(ip, Block6(0xff, 0), 8) && To16(ip)[1] & 0x0f == 2)
    ensures ScopeOf(ip) == OtherScope <==>
            || IsNowhere(ip)
            || ((Within(ip, Block4(224, 0), 100) || Within(ip, Block6(0xff, 0), 8)) && ScopeOf(ip) != LinkLocal)
  {
    LoopbackBlocks(ip);
    LinkLocalBlocks(ip);
    LinkLocalMulticastBlocks(ip);
    MulticastBlocks(ip);
    NowhereIff(ip);
    OnlyOneBlock(ip);
  }

  lemma NowhereIff(ip: Ip)
    ensures IsNowhere(ip) <==> IsBroadcast(ip) || IsUnspecified(ip)
  {
    FormOfV4(ip);
    if To4(ip).Some? {
      var v4 := To4(ip).value;
      assert (V4_IN_V6 + v4)[12..] == v4;
      assert (V4_IN_V6 + [0, 0, 0, 0])[12..] == [0, 0, 0, 0];
      assert (V4_IN_V6 + [0xff, 0xff, 0xff, 0xff])[12..] == [0xff, 0xff, 0xff, 0xff];
      V4IsNot(To16(ip));
    } else {
      assert (V4_IN_V6 + [0, 0, 0, 0])[..12] == V4_IN_V6;
      assert (V4_IN_V6 + [0xff, 0xff, 0xff, 0xff])[..12] == V4_IN_V6;
    }
  }

  lemma OnlyOneBlock(ip: Ip)
    ensures IsLoopback(ip) ==> !IsMulticast(ip) && !IsLinkLocalUnicast(ip) && !IsLinkLocalMulticast(ip)
    ensures IsBroadcast(ip) || IsUnspecified(ip) ==> !IsLoopback(ip) && !IsMulticast(ip) && !IsLinkLocalUnicast(ip) && !IsLinkLocalMulticast(ip)
    ensures IsLinkLocalUnicast(ip) ==> !IsMulticast(ip)
  {
    if !IsV6(ip) { FirstOctets(To4(ip).value[0]); }
  }

  lemma FirstOctets(b: bv8)
    ensures b & 0xf0 == 0xe0 ==> b != 127 && b != 169 && b != 0 && b != 0xff
  {
  }
}
