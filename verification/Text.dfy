/** Text as Go has it: bytes. Decimal numbers, and white space at the edges. */
module Text {
  import opened Bytes

  /** An ASCII literal as bytes. */
  function Ascii(s: string): (b: Bytes)
    requires forall i :: 0 <= i < |s| ==> s[i] as int < 128
    ensures |b| == |s|
    ensures forall i :: 0 <= i < |s| ==> b[i] == s[i] as int
  {
    seq(|s|, i requires 0 <= i < |s| => s[i] as int)
  }

  const NEWLINE: byte := 10
  const MINUS: byte := 45
  const PLUS: byte := 43
  const PERCENT: byte := 37
  const DOT: byte := 46
  const COLON: byte := 58
  const EQUALS: byte := 61

  // ---- decimal numbers ----

  predicate IsDigit(b: byte) {
    48 <= b <= 57
  }

  function Digits(n: nat): (d: Bytes)
    ensures d != [] && forall i :: 0 <= i < |d| ==> IsDigit(d[i])
  {
    if n < 10 then [48 + n] else Digits(n / 10) + [48 + n % 10]
  }

  function Itoa(n: int): Bytes {
    if n < 0 then [MINUS] + Digits(-n) else Digits(n)
  }

  function ParseDigits(s: Bytes): Option<nat> {
    if s == [] then None
    else if !IsDigit(s[|s| - 1]) then None
    else if |s| == 1 then Some(s[0] - 48)
    else
      var front := ParseDigits(s[..|s| - 1]);
      if front.None? then None else Some(front.value * 10 + (s[|s| - 1] - 48))
  }

  /** strconv.ParseInt in base 10 with 64 bits. */
  function ParseInt(s: Bytes): Option<int> {
    var negative := s != [] && s[0] == MINUS;
    var digits := if s != [] && (s[0] == MINUS || s[0] == PLUS) then s[1..] else s;
    var n := ParseDigits(digits);
    if n.None? then None
    else
      var v: int := if negative then 0 - n.value else n.value;
      if -MAX_INT64 - 1 <= v <= MAX_INT64 then Some(v) else None
  }

  lemma {:induction false} ParseDigitsOfDigits(n: nat)
    ensures ParseDigits(Digits(n)) == Some(n)
  {
    if n >= 10 {
      ParseDigitsOfDigits(n / 10);
      assert Digits(n)[..|Digits(n)| - 1] == Digits(n / 10);
    }
  }

  lemma ParseIntOfItoa(n: int)
    requires -MAX_INT64 - 1 <= n <= MAX_INT64
    ensures ParseInt(Itoa(n)) == Some(n)
  {
    if n < 0 {
      ParseDigitsOfDigits(-n);
      assert Itoa(n)[1..] == Digits(-n);
    } else {
      ParseDigitsOfDigits(n);
      assert IsDigit(Itoa(n)[0]);
    }
  }

  function Zeros(k: nat): Bytes {
    seq(k, _ => 48)
  }

  /** A decimal numeral: a sign or none, zeros, and the digits of the number, which fits in 64 bits. */
  ghost predicate Numeral(s: Bytes, n: int) {
    && -MAX_INT64 - 1 <= n <= MAX_INT64
    && exists sign: Bytes, k: nat :: Spelled(s, sign, k, n)
  }

  predicate Spelled(s: Bytes, sign: Bytes, k: nat, n: int) {
    SignOf(sign, n) && s == sign + DigitsAfter(k, if n < 0 then -n else n)
  }

  predicate SignOf(sign: Bytes, n: int) {
    || (sign == [] && n >= 0)
    || (sign == [PLUS] && n >= 0)
    || (sign == [MINUS] && n <= 0)
  }

  function DigitsAfter(k: nat, n: nat): (d: Bytes)
    ensures d != [] && IsDigit(d[0])
  {
    Zeros(k) + Digits(n)
  }

  lemma ParseDigitsMore(s: Bytes, b: byte)
    ensures s == [] ==> ParseDigits(s + [b]) == if IsDigit(b) then Some(b - 48) else None
    ensures s != [] ==>
      ParseDigits(s + [b]) == if IsDigit(b) && ParseDigits(s).Some? then Some(ParseDigits(s).value * 10 + (b - 48)) else None
  {
    assert (s + [b])[..|s|] == s;
  }

  lemma DigitsSplit(k: nat, n: nat)
    ensures n >= 10 ==> DigitsAfter(k, n) == DigitsAfter(k, n / 10) + [48 + n % 10]
    ensures n < 10 && k > 0 ==> DigitsAfter(k, n) == DigitsAfter(k - 1, 0) + [48 + n]
    ensures n < 10 && k == 0 ==> DigitsAfter(k, n) == [48 + n]
  {
    if n >= 10 {
      Associate(Zeros(k), Digits(n / 10), [48 + n % 10]);
    }
  }

  lemma {:induction false} NumeralIsParsed(k: nat, n: nat)
    ensures ParseDigits(DigitsAfter(k, n)) == Some(n)
    decreases n, k
  {
    DigitsSplit(k, n);
    if n >= 10 {
      NumeralIsParsed(k, n / 10);
      ParseDigitsMore(DigitsAfter(k, n / 10), 48 + n % 10);
    } else if k > 0 {
      NumeralIsParsed(k - 1, 0);
      ParseDigitsMore(DigitsAfter(k - 1, 0), 48 + n);
    }
  }

  lemma {:induction false} ParsedIsNumeral(s: Bytes) returns (k: nat)
    requires ParseDigits(s).Some?
    ensures s == DigitsAfter(k, ParseDigits(s).value)
  {
    var n := ParseDigits(s).value;
    var b := s[|s| - 1];
    assert s == s[..|s| - 1] + [b];
    if |s| == 1 {
      k := 0;
      DigitsSplit(0, n);
    } else {
      var front := s[..|s| - 1];
      k := ParsedIsNumeral(front);
      var m := ParseDigits(front).value;
      if m == 0 {
        DigitsSplit(k + 1, n);
        k := k + 1;
      } else {
        DigitsSplit(k, n);
      }
    }
  }

  /** ParseInt reads exactly the numerals, with their value. */
  lemma ParseIntIff(s: Bytes, n: int)
    ensures ParseInt(s) == Some(n) <==> Numeral(s, n)
  {
    if ParseInt(s) == Some(n) { ParsedSign(s, n); }
    if Numeral(s, n) {
      var sign, k :| Spelled(s, sign, k, n);
      SignedIsParsed(sign, k, n);
    }
  }

  lemma ParsedSign(s: Bytes, n: int)
    requires ParseInt(s) == Some(n)
    ensures Numeral(s, n)
  {
    var signed := s != [] && (s[0] == MINUS || s[0] == PLUS);
    var sign, rest := if signed then s[..1] else [], if signed then s[1..] else s;
    var k := ParsedIsNumeral(rest);
    assert s == sign + rest;
    assert Spelled(s, sign, k, n);
  }

  lemma SignedIsParsed(sign: Bytes, k: nat, n: int)
    requires SignOf(sign, n) && -MAX_INT64 - 1 <= n <= MAX_INT64
    ensures ParseInt(sign + DigitsAfter(k, if n < 0 then -n else n)) == Some(n)
  {
    var d := DigitsAfter(k, if n < 0 then -n else n);
    NumeralIsParsed(k, if n < 0 then -n else n);
    if sign == [] {
      assert sign + d == d;
    } else {
      assert (sign + d)[1..] == d && (sign + d)[0] == sign[0];
    }
  }

  // ---- key hashes ----

  predicate IsLowerHex(s: Bytes) {
    forall i :: 0 <= i < |s| ==> 48 <= s[i] <= 57 || 97 <= s[i] <= 102
  }

  predicate IsPkHash(s: Bytes) {
    |s| == 32 && IsLowerHex(s)
  }

  // ---- white space ----

  /** The UTF-8 form of one white-space character, as unicode.IsSpace has it. */
  predicate IsSpace(e: Bytes) {
    || (|e| == 1 && (9 <= e[0] <= 13 || e[0] == 32))
    || (|e| == 2 && e[0] == 0xC2 && (e[1] == 0x85 || e[1] == 0xA0))
    || (|e| == 3 && e[0] == 0xE1 && e[1] == 0x9A && e[2] == 0x80)
    || (|e| == 3 && e[0] == 0xE2 && e[1] == 0x80 && (e[2] <= 0x8A || e[2] == 0xA8 || e[2] == 0xA9 || e[2] == 0xAF) && e[2] >= 0x80)
    || (|e| == 3 && e[0] == 0xE2 && e[1] == 0x81 && e[2] == 0x9F)
    || (|e| == 3 && e[0] == 0xE3 && e[1] == 0x80 && e[2] == 0x80)
  }

  /** The length of the white-space character s starts with, or 0. */
  function SpaceAtStart(s: Bytes): (n: nat)
    ensures n <= |s| && (n > 0 ==> IsSpace(s[..n]))
  {
    if |s| >= 1 && IsSpace(s[..1]) then 1
    else if |s| >= 2 && IsSpace(s[..2]) then 2
    else if |s| >= 3 && IsSpace(s[..3]) then 3
    else 0
  }

  predicate SpaceInLast(s: Bytes, n: nat) {
    n <= |s| && IsSpace(s[|s| - n..])
  }

  function SpaceAtEnd(s: Bytes): (n: nat)
    ensures n <= |s| && (n > 0 ==> IsSpace(s[|s| - n..]))
  {
    if SpaceInLast(s, 1) then 1 else if SpaceInLast(s, 2) then 2 else if SpaceInLast(s, 3) then 3 else 0
  }

  function TrimLeft(s: Bytes): Bytes
    decreases |s|
  {
    if SpaceAtStart(s) > 0 then TrimLeft(s[SpaceAtStart(s)..]) else s
  }

  function TrimRight(s: Bytes): Bytes
    decreases |s|
  {
    if SpaceAtEnd(s) > 0 then TrimRight(s[..|s| - SpaceAtEnd(s)]) else s
  }

  /** strings.TrimSpace. */
  function Trim(s: Bytes): Bytes {
    TrimRight(TrimLeft(s))
  }

  predicate NoEdgeSpace(s: Bytes) {
    SpaceAtStart(s) == 0 && SpaceAtEnd(s) == 0
  }

  lemma {:induction false} TrimLeftShrinks(s: Bytes)
    ensures |TrimLeft(s)| <= |s| && (|TrimLeft(s)| == |s| ==> SpaceAtStart(s) == 0)
    decreases |s|
  {
    if SpaceAtStart(s) > 0 {
      TrimLeftShrinks(s[SpaceAtStart(s)..]);
    }
  }

  lemma {:induction false} TrimRightShrinks(s: Bytes)
    ensures |TrimRight(s)| <= |s| && (|TrimRight(s)| == |s| ==> SpaceAtEnd(s) == 0)
    decreases |s|
  {
    if SpaceAtEnd(s) > 0 {
      TrimRightShrinks(s[..|s| - SpaceAtEnd(s)]);
    }
  }

  lemma TrimKeepsIff(s: Bytes)
    ensures Trim(s) == s <==> NoEdgeSpace(s)
  {
    TrimLeftShrinks(s);
    TrimRightShrinks(TrimLeft(s));
    if Trim(s) == s {
      assert TrimLeft(s) == s;
    }
  }

  lemma NewlineIsNoContinuation(s: Bytes)
    requires s != []
    ensures SpaceAtStart(s + [NEWLINE]) == SpaceAtStart(s)
  {
    var t := s + [NEWLINE];
    assert t[..1] == s[..1];
    if |s| >= 2 {
      assert t[..2] == s[..2];
    }
    if |s| >= 3 {
      assert t[..3] == s[..3];
    }
  }

  /** A final line break changes nothing that trimming leaves. */
  lemma {:induction false} TrimLeftOfLine(s: Bytes)
    ensures if TrimLeft(s) == [] then TrimLeft(s + [NEWLINE]) == []
            else TrimLeft(s + [NEWLINE]) == TrimLeft(s) + [NEWLINE]
    decreases |s|
  {
    if s == [] {
      assert [] + [NEWLINE] == [NEWLINE] && [NEWLINE][..1] == [NEWLINE] && [NEWLINE][1..] == [];
      assert SpaceAtStart([NEWLINE]) == 1 && TrimLeft([NEWLINE]) == TrimLeft([]);
    } else {
      NewlineIsNoContinuation(s);
      var n := SpaceAtStart(s);
      if n > 0 {
        TrimLeftOfLine(s[n..]);
        assert (s + [NEWLINE])[n..] == s[n..] + [NEWLINE];
      }
    }
  }

  lemma TrimLine(s: Bytes)
    ensures Trim(s + [NEWLINE]) == Trim(s)
  {
    TrimLeftOfLine(s);
    var t := TrimLeft(s);
    if t != [] {
      var u := t + [NEWLINE];
      assert u[|u| - 1..] == [NEWLINE] && u[..|u| - 1] == t;
      assert SpaceAtEnd(u) == 1;
    }
  }

  lemma DigitsHaveNoSpace(s: Bytes)
    requires forall i :: 0 <= i < |s| ==> IsDigit(s[i])
    ensures NoEdgeSpace(s)
  {
  }

  // ---- searching ----

  /** The first place of c in s, or -1. */
  function IndexByte(s: Bytes, c: byte): (i: int)
    ensures -1 <= i < |s|
    ensures i < 0 ==> c !in s
    ensures i >= 0 ==> s[i] == c && forall k :: 0 <= k < i ==> s[k] != c
  {
    if s == [] then -1
    else if s[0] == c then 0
    else
      var i := IndexByte(s[1..], c);
      if i < 0 then -1 else i + 1
  }

  lemma IndexIsFirst(a: Bytes, c: byte, b: Bytes)
    requires c !in a
    ensures IndexByte(a + [c] + b, c) == |a|
    ensures (a + [c] + b)[..|a|] == a && (a + [c] + b)[|a| + 1..] == b
  {
    var s := a + [c] + b;
    assert s[|a|] == c;
    assert forall k :: 0 <= k < |a| ==> s[k] == a[k];
  }

  /** Neither an ASCII byte nor what lies beyond it joins a white-space character that starts before it. */
  lemma StartIsLocal(a: Bytes, b: byte, rest: Bytes)
    requires a != [] && b < 128
    ensures SpaceAtStart(a + [b] + rest) == SpaceAtStart(a)
  {
    var t := a + [b] + rest;
    assert t[..1] == a[..1];
    if |a| >= 2 {
      assert t[..2] == a[..2];
      if |a| >= 3 { assert t[..3] == a[..3]; }
    }
  }

  lemma LastIsLocal(rest: Bytes, b: byte, a: Bytes, k: nat)
    requires a != [] && b < 128 && k > 0
    ensures SpaceInLast(rest + [b] + a, k) == SpaceInLast(a, k)
  {
    var t := rest + [b] + a;
    if k <= |a| {
      assert t[|t| - k..] == a[|a| - k..];
    } else if k <= |t| {
      assert t[|t| - k..][k - 1 - |a|] == b;
      NotSpaceWith(t[|t| - k..], k - 1 - |a|);
    }
  }

  lemma EndIsLocal(rest: Bytes, b: byte, a: Bytes)
    requires a != [] && b < 128
    ensures SpaceAtEnd(rest + [b] + a) == SpaceAtEnd(a)
  {
    LastIsLocal(rest, b, a, 1);
    LastIsLocal(rest, b, a, 2);
    LastIsLocal(rest, b, a, 3);
  }

  lemma NotSpaceWith(e: Bytes, i: nat)
    requires i < |e| && |e| > 1 && e[i] < 128
    ensures !IsSpace(e)
  {
  }

  lemma {:induction false} TrimLeftIsSuffix(s: Bytes)
    ensures SpaceAtStart(TrimLeft(s)) == 0
    ensures forall b :: b in TrimLeft(s) ==> b in s
    decreases |s|
  {
    if SpaceAtStart(s) > 0 { TrimLeftIsSuffix(s[SpaceAtStart(s)..]); }
  }

  lemma PrefixStart(s: Bytes, k: nat)
    requires k <= |s| && SpaceAtStart(s) == 0
    ensures SpaceAtStart(s[..k]) == 0
  {
    if k >= 1 {
      assert s[..k][..1] == s[..1];
      if k >= 2 {
        assert s[..k][..2] == s[..2];
        if k >= 3 { assert s[..k][..3] == s[..3]; }
      }
    }
  }

  lemma {:induction false} TrimRightIsPrefix(s: Bytes)
    ensures SpaceAtEnd(TrimRight(s)) == 0
    ensures |TrimRight(s)| <= |s| && TrimRight(s) == s[..|TrimRight(s)|]
    decreases |s|
  {
    if SpaceAtEnd(s) > 0 { TrimRightIsPrefix(s[..|s| - SpaceAtEnd(s)]); }
  }

  /** What trimming leaves: no white space at the edges, no byte that was not there. */
  lemma TrimLeaves(s: Bytes)
    ensures NoEdgeSpace(Trim(s)) && |Trim(s)| <= |s|
    ensures forall b :: b in Trim(s) ==> b in s
  {
    TrimLeftIsSuffix(s);
    TrimLeftShrinks(s);
    TrimRightIsPrefix(TrimLeft(s));
    PrefixStart(TrimLeft(s), |Trim(s)|);
  }

  predicate AllSpaces(cs: seq<Bytes>) {
    forall i :: 0 <= i < |cs| ==> IsSpace(cs[i])
  }

  lemma SpaceInFront(e: Bytes, cs: seq<Bytes>)
    requires IsSpace(e) && AllSpaces(cs)
    ensures AllSpaces([e] + cs) && Concat([e] + cs) == e + Concat(cs)
  {
    assert ([e] + cs)[1..] == cs;
  }

  lemma SpaceBehind(cs: seq<Bytes>, e: Bytes)
    requires IsSpace(e) && AllSpaces(cs)
    ensures AllSpaces(cs + [e]) && Concat(cs + [e]) == Concat(cs) + e
  {
    ConcatOne(cs, e);
  }

  lemma CutAt(s: Bytes, n: nat)
    requires n <= |s|
    ensures s == s[..n] + s[n..]
  {
  }

  lemma {:induction false} TrimLeftCuts(s: Bytes) returns (cs: seq<Bytes>)
    ensures AllSpaces(cs) && s == Concat(cs) + TrimLeft(s)
    decreases |s|
  {
    var n := SpaceAtStart(s);
    if n == 0 {
      cs := [];
      assert [] + s == s;
    } else {
      var rest := TrimLeftCuts(s[n..]);
      cs := [s[..n]] + rest;
      SpaceInFront(s[..n], rest);
      Associate(s[..n], Concat(rest), TrimLeft(s));
      CutAt(s, n);
    }
  }

  /** One character less, if it is white space. */
  lemma LastSpace(s: Bytes) returns (k: nat)
    ensures k <= |s| && TrimRight(s) == if k == |s| then s else TrimRight(s[..k])
    ensures k < |s| ==> IsSpace(s[k..])
  {
    k := |s| - SpaceAtEnd(s);
  }

  lemma {:induction false} TrimRightCuts(s: Bytes) returns (cs: seq<Bytes>)
    ensures AllSpaces(cs) && s == TrimRight(s) + Concat(cs)
    decreases |s|
  {
    var k := LastSpace(s);
    if k == |s| {
      cs := [];
      assert s + [] == s;
    } else {
      var rest := TrimRightCuts(s[..k]);
      cs := rest + [s[k..]];
      SpaceBehind(rest, s[k..]);
      Associate(TrimRight(s), Concat(rest), s[k..]);
      CutAt(s, k);
    }
  }

  /** Trimming takes white-space characters from both ends and nothing else. */
  lemma TrimIsMiddle(s: Bytes) returns (a: seq<Bytes>, b: seq<Bytes>)
    ensures AllSpaces(a) && AllSpaces(b) && s == Concat(a) + (Trim(s) + Concat(b)) && NoEdgeSpace(Trim(s))
  {
    a := TrimLeftCuts(s);
    b := TrimRightCuts(TrimLeft(s));
    TrimLeaves(s);
  }

  lemma TrimShrinks(s: Bytes)
    ensures |Trim(s)| <= |s| && (|Trim(s)| == |s| ==> NoEdgeSpace(s))
  {
    TrimLeftShrinks(s);
    TrimRightShrinks(TrimLeft(s));
  }

  lemma VisibleEnd(s: Bytes)
    requires s != [] && 32 < s[|s| - 1] < 128
    ensures SpaceAtEnd(s) == 0
  {
  }
}
