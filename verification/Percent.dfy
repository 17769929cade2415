/** The query form of percent-encoding: section 2.1 of RFC 3986, with a plus sign for a space. */
module Percent {
  import opened Bytes
  import opened Text

  const BLANK: byte := 32

  predicate Unreserved(b: byte) {
    48 <= b <= 57 || 65 <= b <= 90 || 97 <= b <= 122 || b == 45 || b == 46 || b == 95 || b == 126
  }

  function HexDigit(n: nat): byte
    requires n < 16
  {
    if n < 10 then 48 + n else 55 + n
  }

  function HexValue(b: byte): (v: Option<nat>)
    ensures v.Some? ==> v.value < 16
  {
    if 48 <= b <= 57 then Some(b - 48)
    else if 65 <= b <= 70 then Some(b - 55)
    else if 97 <= b <= 102 then Some(b - 87)
    else None
  }

  function EscapeByte(b: byte): Bytes {
    if Unreserved(b) then [b]
    else if b == BLANK then [PLUS]
    else [PERCENT, HexDigit(b / 16), HexDigit(b % 16)]
  }

  function QueryEscape(s: Bytes): Bytes {
    if s == [] then [] else EscapeByte(s[0]) + QueryEscape(s[1..])
  }

  function Before(b: byte, rest: Option<Bytes>): Option<Bytes> {
    if rest.None? then None else Some([b] + rest.value)
  }

  function Pair(hi: byte, lo: byte): Option<byte> {
    var h, l := HexValue(hi), HexValue(lo);
    if h.None? || l.None? then None else Some(h.value * 16 + l.value)
  }

  function QueryUnescape(s: Bytes): Option<Bytes> {
    if s == [] then Some([])
    else if s[0] == PERCENT then
      if |s| < 3 || Pair(s[1], s[2]).None? then None
      else Before(Pair(s[1], s[2]).value, QueryUnescape(s[3..]))
    else if s[0] == PLUS then Before(BLANK, QueryUnescape(s[1..]))
    else Before(s[0], QueryUnescape(s[1..]))
  }

  /** A hexadecimal digit in either case. */
  lemma HexValueIff(b: byte, v: nat)
    requires v < 16
    ensures HexValue(b) == Some(v) <==> b == Ascii("0123456789ABCDEF")[v] || b == Ascii("0123456789abcdef")[v]
  {
  }

  lemma PairOfByte(b: byte)
    ensures Pair(HexDigit(b / 16), HexDigit(b % 16)) == Some(b)
  {
  }

  lemma UnescapeFirst(b: byte, rest: Bytes)
    ensures QueryUnescape(EscapeByte(b) + rest) == Before(b, QueryUnescape(rest))
  {
    var s := EscapeByte(b) + rest;
    PairOfByte(b);
    assert s[|EscapeByte(b)|..] == rest;
  }

  lemma {:induction false} EscapeRoundTrip(s: Bytes)
    ensures QueryUnescape(QueryEscape(s)) == Some(s)
  {
    if s != [] {
      EscapeRoundTrip(s[1..]);
      UnescapeFirst(s[0], QueryEscape(s[1..]));
      assert s == [s[0]] + s[1..];
    }
  }

  /** Decoding leaves a text as it is exactly if there is nothing in it to decode. */
  lemma {:induction false} DecodedIsItselfIff(s: Bytes)
    ensures QueryUnescape(s).Some? ==> |QueryUnescape(s).value| <= |s|
    ensures QueryUnescape(s) == Some(s) <==> PERCENT !in s && PLUS !in s
  {
    if s != [] {
      assert s == [s[0]] + s[1..];
      if s[0] == PERCENT {
        if |s| >= 3 { DecodedIsItselfIff(s[3..]); }
      } else {
        DecodedIsItselfIff(s[1..]);
        var r := QueryUnescape(s[1..]);
        if r.Some? && s[0] != PLUS {
          assert ([s[0]] + r.value)[1..] == r.value;
        }
      }
    }
  }

  /** Encoded text holds no separator of the query syntax. */
  lemma {:induction false} EscapedIsSafe(s: Bytes)
    ensures forall b :: b in QueryEscape(s) ==> Unreserved(b) || b == PERCENT || b == PLUS
  {
    if s != [] {
      EscapedIsSafe(s[1..]);
      forall b | b in EscapeByte(s[0]) ensures Unreserved(b) || b == PERCENT || b == PLUS {}
    }
  }

  /** Letters, digits and four marks are written as they are, and nothing else is. */
  lemma {:induction false} EscapedIsItselfIff(s: Bytes)
    ensures |QueryEscape(s)| >= |s|
    ensures QueryEscape(s) == s <==>
            forall b :: b in s ==> 48 <= b <= 57 || 65 <= b <= 90 || 97 <= b <= 122 || b in Ascii("-._~")
  {
    if s != [] {
      EscapedIsItselfIff(s[1..]);
      assert s == [s[0]] + s[1..];
      MarksAre(s[0]);
    }
  }

  lemma MarksAre(b: byte)
    ensures b in Ascii("-._~") <==> b == 45 || b == 46 || b == 95 || b == 126
  {
    var m := Ascii("-._~");
    assert m[0] == 45 && m[1] == 46 && m[2] == 95 && m[3] == 126;
  }

  // ---- the percent sign alone ----

  const TWO: byte := 50
  const FIVE: byte := 53

  function EscapePercent(s: Bytes): Bytes {
    if s == [] then [] else (if s[0] == PERCENT then [PERCENT, TWO, FIVE] else [s[0]]) + EscapePercent(s[1..])
  }

  /** Escaping only percent signs is undone by decoding exactly if there is no plus sign. */
  lemma {:induction false} EscapePercentIff(s: Bytes)
    ensures QueryUnescape(EscapePercent(s)) == Some(s) <==> PLUS !in s
    ensures QueryUnescape(EscapePercent(s)).Some? && |QueryUnescape(EscapePercent(s)).value| == |s|
  {
    if s != [] {
      EscapePercentIff(s[1..]);
      var rest := EscapePercent(s[1..]);
      var t := EscapePercent(s);
      var r := QueryUnescape(rest).value;
      assert s == [s[0]] + s[1..];
      if s[0] == PERCENT {
        assert Pair(TWO, FIVE) == Some(PERCENT);
        assert t[3..] == rest;
        assert ([PERCENT] + r)[1..] == r;
      } else {
        assert t[1..] == rest;
        assert ([s[0]] + r)[1..] == r;
      }
    }
  }

  lemma {:induction false} EscapePercentBytes(s: Bytes)
    ensures forall b :: b in EscapePercent(s) ==> b in s || b == TWO || b == FIVE
    ensures forall b :: b in s ==> b in EscapePercent(s)
  {
    if s != [] {
      EscapePercentBytes(s[1..]);
      assert s == [s[0]] + s[1..];
    }
  }
}
