/** Search over file paths: the escaping of the user's text, and what LIKE makes of the result. */
module Like {

  const ESCAPE := '!'
  const ANY_TEXT := '%'
  const ANY_CHAR := '_'

  /** strings.ReplaceAll, for a non-empty text to be replaced. */
  function ReplaceAll(s: string, old_: string, new_: string): string
    requires old_ != []
  {
    if |s| < |old_| then s
    else if s[..|old_|] == old_ then new_ + ReplaceAll(s[|old_|..], old_, new_)
    else [s[0]] + ReplaceAll(s[1..], old_, new_)
  }

  function EscapeLike(s: string): string {
    ReplaceAll(ReplaceAll(ReplaceAll(s, "!", "!!"), "%", "!%"), "_", "!_")
  }

  predicate Special(c: char) {
    c == ESCAPE || c == ANY_TEXT || c == ANY_CHAR
  }

  /** Character by character: special ones get one escape in front. */
  function Escaped(s: string): string {
    if s == "" then "" else (if Special(s[0]) then [ESCAPE, s[0]] else [s[0]]) + Escaped(s[1..])
  }

  lemma ReplaceFirst(c: char, x: char, rest: string)
    ensures ReplaceAll([x] + rest, [c], [ESCAPE, c]) ==
            (if x == c then [ESCAPE, c] else [x]) + ReplaceAll(rest, [c], [ESCAPE, c])
  {
    assert ([x] + rest)[..1] == [x] && ([x] + rest)[1..] == rest;
  }

  lemma ReplaceFirstTwo(c: char, x: char, y: char, rest: string)
    ensures ReplaceAll([x, y] + rest, [c], [ESCAPE, c]) ==
            (if x == c then [ESCAPE, c] else [x]) + ((if y == c then [ESCAPE, c] else [y]) + ReplaceAll(rest, [c], [ESCAPE, c]))
  {
    assert [x, y] + rest == [x] + ([y] + rest);
    ReplaceFirst(c, x, [y] + rest);
    ReplaceFirst(c, y, rest);
  }

  // One character in front of a text, through the three passes.

  lemma EscapeInFront(rest: string)
    ensures EscapeLike([ESCAPE] + rest) == [ESCAPE, ESCAPE] + EscapeLike(rest)
  {
    var one := ReplaceAll(rest, "!", "!!");
    var two := ReplaceAll(one, "%", "!%");
    ReplaceFirst('!', '!', rest);
    ReplaceFirstTwo('%', '!', '!', one);
    assert ['!'] + (['!'] + two) == ['!', '!'] + two;
    ReplaceFirstTwo('_', '!', '!', two);
  }

  lemma PercentInFront(rest: string)
    ensures EscapeLike([ANY_TEXT] + rest) == [ESCAPE, ANY_TEXT] + EscapeLike(rest)
  {
    var one := ReplaceAll(rest, "!", "!!");
    var two := ReplaceAll(one, "%", "!%");
    ReplaceFirst('!', '%', rest);
    ReplaceFirst('%', '%', one);
    ReplaceFirstTwo('_', '!', '%', two);
  }

  lemma OtherInFront(x: char, rest: string)
    requires x != ESCAPE && x != ANY_TEXT
    ensures EscapeLike([x] + rest) == (if x == ANY_CHAR then [ESCAPE, x] else [x]) + EscapeLike(rest)
  {
    var one := ReplaceAll(rest, "!", "!!");
    ReplaceFirst('!', x, rest);
    ReplaceFirst('%', x, one);
    ReplaceFirst('_', x, ReplaceAll(one, "%", "!%"));
  }

  lemma EscapedMore(x: char, rest: string)
    ensures Escaped([x] + rest) == (if Special(x) then [ESCAPE, x] else [x]) + Escaped(rest)
  {
    assert ([x] + rest)[1..] == rest;
  }

  /** The three passes do not escape each other's escapes, because the escape character goes first. */
  lemma {:induction false} EscapeLikeIsCharacterwise(s: string)
    ensures EscapeLike(s) == Escaped(s)
  {
    if s != "" {
      var x, rest := s[0], s[1..];
      EscapeLikeIsCharacterwise(rest);
      EscapedMore(x, rest);
      if x == ESCAPE {
        EscapeInFront(rest);
      } else if x == ANY_TEXT {
        PercentInFront(rest);
      } else {
        OtherInFront(x, rest);
      }
      assert s == [x] + rest;
    }
  }

  /** The same passes with the escape character last. */
  function EscapeLast(s: string): string {
    ReplaceAll(ReplaceAll(ReplaceAll(s, "%", "!%"), "_", "!_"), "!", "!!")
  }

  lemma PercentLast(rest: string)
    ensures EscapeLast([ANY_TEXT] + rest) == [ESCAPE, ESCAPE] + ([ANY_TEXT] + EscapeLast(rest))
  {
    var one := ReplaceAll(rest, "%", "!%");
    var two := ReplaceAll(one, "_", "!_");
    ReplaceFirst('%', '%', rest);
    ReplaceFirstTwo('_', '!', '%', one);
    assert ['!'] + (['%'] + two) == ['!', '%'] + two;
    ReplaceFirstTwo('!', '!', '%', two);
  }

  lemma OtherLast(x: char, rest: string)
    requires x != ANY_TEXT
    ensures EscapeLast([x] + rest) ==
            (if x == ANY_CHAR then [ESCAPE, ESCAPE, x] else if x == ESCAPE then [x, x] else [x]) + EscapeLast(rest)
  {
    var one := ReplaceAll(rest, "%", "!%");
    var two := ReplaceAll(one, "_", "!_");
    ReplaceFirst('%', x, rest);
    ReplaceFirst('_', x, one);
    if x == ANY_CHAR {
      ReplaceFirstTwo('!', '!', '_', two);
      assert ['!', '!'] + (['_'] + EscapeLast(rest)) == ['!', '!', '_'] + EscapeLast(rest);
    } else {
      ReplaceFirst('!', x, two);
    }
  }

  lemma {:induction false} EscapeLastIsLonger(s: string)
    ensures |EscapeLast(s)| >= |Escaped(s)|
    ensures if ANY_TEXT in s || ANY_CHAR in s then |EscapeLast(s)| > |Escaped(s)| else EscapeLast(s) == Escaped(s)
  {
    if s != "" {
      var x, rest := s[0], s[1..];
      EscapeLastIsLonger(rest);
      EscapedMore(x, rest);
      if x == ANY_TEXT {
        PercentLast(rest);
      } else {
        OtherLast(x, rest);
      }
      assert s == [x] + rest;
    }
  }

  /** Escaping the escape character last would spoil every text with a wildcard in it, and no other. */
  lemma OrderOfPassesMatters(s: string)
    ensures EscapeLast(s) == EscapeLike(s) <==> ANY_TEXT !in s && ANY_CHAR !in s
  {
    EscapeLikeIsCharacterwise(s);
    EscapeLastIsLonger(s);
  }

  // ---- the matcher ----

  /** pattern LIKE s ESCAPE '!', up to the engine's equality of characters. */
  predicate Matches(eq: (char, char) -> bool, pattern: string, s: string)
    decreases |pattern| + |s|
  {
    if pattern == "" then s == ""
    else if pattern[0] == ANY_TEXT then
      Matches(eq, pattern[1..], s) || (s != "" && Matches(eq, pattern, s[1..]))
    else if pattern[0] == ANY_CHAR then
      s != "" && Matches(eq, pattern[1..], s[1..])
    else if pattern[0] == ESCAPE then
      |pattern| > 1 && s != "" && eq(pattern[1], s[0]) && Matches(eq, pattern[2..], s[1..])
    else
      s != "" && eq(pattern[0], s[0]) && Matches(eq, pattern[1..], s[1..])
  }

  /** q begins at s[0]. */
  predicate Begins(eq: (char, char) -> bool, q: string, s: string) {
    |q| <= |s| && forall i :: 0 <= i < |q| ==> eq(q[i], s[i])
  }

  lemma {:induction false} PercentMatchesAll(eq: (char, char) -> bool, s: string)
    ensures Matches(eq, "%", s)
    decreases |s|
  {
    assert "%"[1..] == "";
    if s != "" { PercentMatchesAll(eq, s[1..]); }
  }

  lemma BeginsMore(eq: (char, char) -> bool, q: string, s: string)
    requires q != ""
    ensures Begins(eq, q, s) <==> s != "" && eq(q[0], s[0]) && Begins(eq, q[1..], s[1..])
  {
    if s != "" && eq(q[0], s[0]) && Begins(eq, q[1..], s[1..]) {
      forall i | 0 <= i < |q| ensures eq(q[i], s[i]) {
        assert i > 0 ==> q[i] == q[1..][i - 1] && s[i] == s[1..][i - 1];
      }
    }
    if Begins(eq, q, s) {
      forall i | 0 <= i < |q| - 1 ensures eq(q[1..][i], s[1..][i]) {
        assert eq(q[i + 1], s[i + 1]);
      }
    }
  }

  /** An escaped text followed by a percent sign matches what begins with the text. */
  lemma {:induction false} EscapedMatchesIff(eq: (char, char) -> bool, q: string, s: string)
    ensures Matches(eq, Escaped(q) + "%", s) <==> Begins(eq, q, s)
    decreases |q|
  {
    var p := Escaped(q) + "%";
    if q == "" {
      assert p == "%";
      PercentMatchesAll(eq, s);
    } else {
      var rest := Escaped(q[1..]) + "%";
      BeginsMore(eq, q, s);
      if Special(q[0]) {
        assert p == [ESCAPE, q[0]] + rest;
        assert p[0] == ESCAPE && p[1] == q[0] && p[2..] == rest;
      } else {
        assert p == [q[0]] + rest;
        assert p[0] == q[0] && p[1..] == rest;
      }
      if s != "" { EscapedMatchesIff(eq, q[1..], s[1..]); }
    }
  }

  /** q occurs in s at k. */
  predicate OccursAt(eq: (char, char) -> bool, q: string, s: string, k: nat) {
    k <= |s| && Begins(eq, q, s[k..])
  }

  ghost predicate Occurs(eq: (char, char) -> bool, q: string, s: string) {
    exists k: nat :: OccursAt(eq, q, s, k)
  }

  lemma OccursLater(eq: (char, char) -> bool, q: string, s: string, k: nat)
    requires s != ""
    ensures OccursAt(eq, q, s[1..], k) <==> OccursAt(eq, q, s, k + 1)
  {
    if k < |s| {
      assert s[1..][k..] == s[k + 1..];
    }
  }

  lemma OccursFirst(eq: (char, char) -> bool, q: string, s: string)
    ensures OccursAt(eq, q, s, 0) <==> Begins(eq, q, s)
  {
    assert s[0..] == s;
  }

  lemma OccursMore(eq: (char, char) -> bool, q: string, s: string)
    ensures Occurs(eq, q, s) <==> Begins(eq, q, s) || (s != "" && Occurs(eq, q, s[1..]))
  {
    OccursFirst(eq, q, s);
    if Occurs(eq, q, s) {
      var k: nat :| OccursAt(eq, q, s, k);
      if k > 0 {
        OccursLater(eq, q, s, k - 1);
      }
    }
    if s != "" && Occurs(eq, q, s[1..]) {
      var k: nat :| OccursAt(eq, q, s[1..], k);
      OccursLater(eq, q, s, k);
    }
  }

  lemma {:induction false} PercentFinds(eq: (char, char) -> bool, q: string, s: string)
    ensures Matches(eq, "%" + (Escaped(q) + "%"), s) <==> Occurs(eq, q, s)
    decreases |s|
  {
    var p := Escaped(q) + "%";
    assert ("%" + p)[1..] == p;
    EscapedMatchesIff(eq, q, s);
    OccursMore(eq, q, s);
    if s != "" {
      PercentFinds(eq, q, s[1..]);
    }
  }

  /** The search finds exactly the paths in which the user's text occurs. */
  lemma SearchIsSubstring(eq: (char, char) -> bool, q: string, s: string)
    ensures Matches(eq, "%" + EscapeLike(q) + "%", s) <==> Occurs(eq, q, s)
  {
    EscapeLikeIsCharacterwise(q);
    assert "%" + EscapeLike(q) + "%" == "%" + (Escaped(q) + "%");
    PercentFinds(eq, q, s);
  }
}
