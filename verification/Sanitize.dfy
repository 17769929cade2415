/** Names that come from another machine, made safe to store below the save directory. */
module Sanitize {
  import opened Bytes
  import opened Text
  import opened Parts

  const SLASH: byte := 47
  const BACKSLASH: byte := 92
  const SPACE: byte := 32
  const UNDERSCORE: byte := 95

  /** < > : " | ? * and the control bytes. */
  predicate Illegal(b: byte) {
    b < 32 || b == 60 || b == 62 || b == 58 || b == 34 || b == 124 || b == 63 || b == 42
  }

  predicate IsSeparator(b: byte) {
    b == SLASH || b == BACKSLASH
  }

  function Mapped(f: byte -> byte, s: Bytes): (r: Bytes)
    ensures |r| == |s| && forall i :: 0 <= i < |s| ==> r[i] == f(s[i])
  {
    seq(|s|, i requires 0 <= i < |s| => f(s[i]))
  }

  lemma MappedFrom(f: byte -> byte, s: Bytes, b: byte)
    requires b in Mapped(f, s)
    ensures exists a :: a in s && b == f(a)
  {
    var i :| 0 <= i < |s| && Mapped(f, s)[i] == b;
    assert s[i] in s;
  }

  function Legal(b: byte): byte {
    if Illegal(b) then UNDERSCORE else b
  }

  lemma MapsToItself(f: byte -> byte, s: Bytes)
    requires forall b :: b in s ==> f(b) == b
    ensures Mapped(f, s) == s
  {
    assert forall i :: 0 <= i < |s| ==> s[i] in s;
  }

  function Slashed(b: byte): byte {
    if b == BACKSLASH then SLASH else b
  }

  /** strings.TrimRight(s, ". "). */
  function TrimDots(s: Bytes): (r: Bytes)
    ensures |r| <= |s| && r == s[..|r|]
    ensures r != [] ==> r[|r| - 1] != DOT && r[|r| - 1] != SPACE
    ensures forall i :: |r| <= i < |s| ==> s[i] == DOT || s[i] == SPACE
  {
    if s != [] && (s[|s| - 1] == DOT || s[|s| - 1] == SPACE) then TrimDots(s[..|s| - 1]) else s
  }

  /** One segment of the path, or nothing if it is to be dropped. */
  function Component(seg: Bytes): Option<Bytes> {
    var s := Trim(Mapped(Legal, seg));
    if s == [] || s == [DOT] || s == [DOT, DOT] then None
    else if TrimDots(s) == [] then None
    else Some(TrimDots(s))
  }

  // ---- drive letters and shares ----

  /** The first place from i on that is not a separator. */
  function SepEnd(s: Bytes, i: nat): (j: nat)
    requires i <= |s|
    ensures i <= j <= |s| && (forall k :: i <= k < j ==> IsSeparator(s[k])) && (j < |s| ==> !IsSeparator(s[j]))
    decreases |s| - i
  {
    if i < |s| && IsSeparator(s[i]) then SepEnd(s, i + 1) else i
  }

  /** The first place from i on that is a separator. */
  function NameEnd(s: Bytes, i: nat): (j: nat)
    requires i <= |s|
    ensures i <= j <= |s| && (forall k :: i <= k < j ==> !IsSeparator(s[k])) && (j < |s| ==> IsSeparator(s[j]))
    decreases |s| - i
  {
    if i < |s| && !IsSeparator(s[i]) then NameEnd(s, i + 1) else i
  }

  /** What follows server, separators, share and one more separator; everything if they are not all there. */
  function AfterShare(rest: Bytes): Bytes {
    var end := NameEnd(rest, SepEnd(rest, NameEnd(rest, 0)));
    if end < |rest| then rest[end + 1..] else rest
  }

  predicate IsLetter(b: byte) {
    65 <= b <= 90 || 97 <= b <= 122
  }

  function StripDriveOrUNC(p: Bytes): Bytes {
    if |p| > 2 && IsSeparator(p[0]) && p[1] == p[0] then AfterShare(p[2..])
    else if |p| >= 2 && IsLetter(p[0]) && p[1] == COLON then p[SepEnd(p, 2)..]
    else p
  }

  predicate IsName(s: Bytes) {
    s != [] && forall i :: 0 <= i < |s| ==> !IsSeparator(s[i])
  }

  predicate IsRun(s: Bytes) {
    s != [] && forall i :: 0 <= i < |s| ==> IsSeparator(s[i])
  }

  predicate NoSeparator(s: Bytes) {
    forall i :: 0 <= i < |s| ==> !IsSeparator(s[i])
  }

  lemma AfterShareIs(server: Bytes, run: Bytes, share: Bytes, sep: byte, tail: Bytes)
    requires NoSeparator(server) && IsName(share) && IsSeparator(sep) && IsRun(run)
    ensures AfterShare(server + run + share + [sep] + tail) == tail
  {
    var s := server + run + share + [sep] + tail;
    var a := |server|;
    var b := a + |run|;
    var c := b + |share|;
    assert forall k :: 0 <= k < a ==> s[k] == server[k];
    assert forall k :: a <= k < b ==> s[k] == run[k - a];
    assert forall k :: b <= k < c ==> s[k] == share[k - b];
    assert s[a] == run[0] && s[b] == share[0] && s[c] == sep && s[c + 1..] == tail;
    assert NameEnd(s, 0) == a;
    assert SepEnd(s, a) == b;
    assert NameEnd(s, b) == c;
  }

  /** The server and the share of a network path are dropped, however many separators stand between them. */
  lemma ShareIsStripped(server: Bytes, run: Bytes, share: Bytes, sep: byte, tail: Bytes, slash: byte)
    requires NoSeparator(server) && IsName(share) && IsSeparator(sep) && IsRun(run) && IsSeparator(slash)
    ensures StripDriveOrUNC([slash, slash] + (server + run + share + [sep] + tail)) == tail
  {
    var a := server + run + share + [sep] + tail;
    AfterShareIs(server, run, share, sep, tail);
    assert ([slash, slash] + a)[2..] == a;
  }

  lemma NoShareIs(server: Bytes, run: Bytes, share: Bytes)
    requires NoSeparator(server) && NoSeparator(share) && (run == [] ==> share == []) && (run != [] ==> IsRun(run))
    ensures AfterShare(server + run + share) == server + run + share
  {
    var s := server + run + share;
    var a := |server|;
    var b := a + |run|;
    assert forall k :: 0 <= k < a ==> s[k] == server[k];
    assert forall k :: a <= k < b ==> s[k] == run[k - a];
    assert forall k :: b <= k < |s| ==> s[k] == share[k - b];
    assert a < |s| ==> s[a] == run[0];
    assert NameEnd(s, 0) == a;
    assert b < |s| ==> s[b] == share[0];
    assert SepEnd(s, a) == b;
    assert NameEnd(s, b) == |s|;
  }

  /** A network path that ends before its share does loses the two slashes only. */
  lemma UnfinishedShareIsKept(server: Bytes, run: Bytes, share: Bytes, slash: byte)
    requires NoSeparator(server) && NoSeparator(share) && (run == [] ==> share == []) && (run != [] ==> IsRun(run))
    requires IsSeparator(slash) && server + run + share != []
    ensures StripDriveOrUNC([slash, slash] + (server + run + share)) == server + run + share
  {
    NoShareIs(server, run, share);
    assert ([slash, slash] + (server + run + share))[2..] == server + run + share;
  }

  /** A drive letter goes with its colon and the separators behind it. */
  lemma DriveIsStripped(letter: byte, run: Bytes, tail: Bytes)
    requires 65 <= letter <= 90 || 97 <= letter <= 122
    requires (run != [] ==> IsRun(run)) && (tail != [] ==> !IsSeparator(tail[0]))
    ensures StripDriveOrUNC([letter, COLON] + run + tail) == tail
  {
    var p := [letter, COLON] + run + tail;
    var k := 2 + |run|;
    assert forall i :: 2 <= i < k ==> p[i] == run[i - 2];
    assert p[k..] == tail && (tail != [] ==> p[k] == tail[0]);
    assert SepEnd(p, 2) == k;
  }

  predicate HasDrive(p: Bytes) {
    |p| >= 2 && (65 <= p[0] <= 90 || 97 <= p[0] <= 122) && p[1] == COLON
  }

  predicate IsNetworkPath(p: Bytes) {
    |p| > 2 && p[..2] in [[SLASH, SLASH], [BACKSLASH, BACKSLASH]]
  }

  /** Nothing else is taken off. */
  lemma PrefixIsKeptIff(p: Bytes)
    ensures StripDriveOrUNC(p) == p <==> !HasDrive(p) && !IsNetworkPath(p)
  {
    if |p| >= 2 { assert p[..2] == [p[0], p[1]]; }
  }

  /** The source's scan: counts separators, jumping over runs. */
  method SkipShare(rest: Bytes) returns (r: Bytes)
    ensures r == AfterShare(rest)
  {
    var seps := 0;
    var i := 0;
    ghost var server := NameEnd(rest, 0);
    ghost var run := SepEnd(rest, server);
    ghost var end := NameEnd(rest, run);
    while i < |rest|
      invariant 0 <= i <= |rest| && 0 <= seps <= 1
      invariant seps == 0 ==> i <= server
      invariant seps == 1 ==> run <= i <= end
    {
      if IsSeparator(rest[i]) {
        seps := seps + 1;
        if seps == 2 {
          return rest[i + 1..];
        }
        while i + 1 < |rest| && IsSeparator(rest[i + 1])
          invariant server <= i < run
        {
          i := i + 1;
        }
      }
      i := i + 1;
    }
    return rest;
  }

  method StripPrefix(p: Bytes) returns (r: Bytes)
    ensures r == StripDriveOrUNC(p)
  {
    if |p| > 2 && IsSeparator(p[0]) && p[1] == p[0] {
      r := SkipShare(p[2..]);
    } else if |p| >= 2 && IsLetter(p[0]) && p[1] == COLON {
      r := p[SepEnd(p, 2)..];
    } else {
      r := p;
    }
  }

  // ---- the whole path ----

  function Segments(rel: Bytes): seq<Bytes> {
    Split(Mapped(Slashed, StripDriveOrUNC(Trim(rel))), SLASH)
  }

  function Components(rel: Bytes): seq<Bytes> {
    Collect(Component, Segments(rel))
  }

  function Sanitized(rel: Bytes): Bytes {
    Join(Components(rel), SLASH)
  }

  method SanitizeRelativePath(rel: Bytes) returns (r: Bytes)
    ensures r == Sanitized(rel)
  {
    var stripped := StripPrefix(Trim(rel));
    var segs := Split(Mapped(Slashed, stripped), SLASH);
    var out: seq<Bytes> := [];
    var i := 0;
    while i < |segs|
      invariant 0 <= i <= |segs| && out == Collect(Component, segs[..i])
    {
      CollectMore(Component, segs, i);
      var s := Trim(Mapped(Legal, segs[i]));
      if s != [] && s != [DOT] && s != [DOT, DOT] {
        s := TrimDots(s);
        if s != [] { out := out + [s]; }
      }
      i := i + 1;
    }
    assert segs[..i] == segs;
    return Join(out, SLASH);
  }

  /** The bytes that cannot be in a file name everywhere. */
  predicate Forbidden(b: byte) {
    b < 32 || b in Ascii("<>:\"|?*")
  }

  /** Each forbidden byte becomes an underscore, and a segment without white space or dots at its edges loses nothing else. */
  lemma ForbiddenBecomeUnderscores(seg: Bytes)
    requires seg != [] && 32 < seg[0] < 128 && 32 < seg[|seg| - 1] < 128 && seg[|seg| - 1] != DOT
    ensures Component(seg).Some? && |Component(seg).value| == |seg|
    ensures forall i :: 0 <= i < |seg| ==> Component(seg).value[i] == if Forbidden(seg[i]) then Ascii("_")[0] else seg[i]
  {
    var m := Mapped(Legal, seg);
    EdgesAreVisible(m);
    assert m[|m| - 1] != DOT;
    assert TrimDots(m) == m;
    forall i | 0 <= i < |seg| ensures m[i] == if Forbidden(seg[i]) then UNDERSCORE else seg[i] {
      ForbiddenIff(seg[i]);
    }
  }

  lemma EdgesAreVisible(s: Bytes)
    requires s != [] && 32 < s[0] < 128 && 32 < s[|s| - 1] < 128
    ensures Trim(s) == s
  {
    VisibleEnd(s);
    TrimKeepsIff(s);
  }

  lemma ForbiddenIff(b: byte)
    ensures Forbidden(b) <==> Illegal(b)
  {
    var marks := Ascii("<>:\"|?*");
    assert marks[0] == 60 && marks[1] == 62 && marks[2] == 58 && marks[3] == 34 && marks[4] == 124 && marks[5] == 63 && marks[6] == 42;
  }

  /** A segment is dropped exactly if nothing but dots and spaces is left of it. */
  ghost predicate Blank(seg: Bytes) {
    forall b :: b in Trim(Mapped(Legal, seg)) ==> b == DOT || b == SPACE
  }

  lemma DroppedIff(seg: Bytes)
    ensures Component(seg).None? <==> Blank(seg)
  {
    NothingLeftIff(Trim(Mapped(Legal, seg)));
  }

  lemma NothingLeftIff(s: Bytes)
    ensures TrimDots(s) == [] <==> forall b :: b in s ==> b == DOT || b == SPACE
    ensures TrimDots([]) == [] && TrimDots([DOT]) == [] && TrimDots([DOT, DOT]) == []
  {
    if TrimDots(s) != [] {
      assert TrimDots(s)[|TrimDots(s)| - 1] in s;
    }
  }

  lemma {:induction false} AllDropped(segs: seq<Bytes>)
    requires forall i :: 0 <= i < |segs| ==> Blank(segs[i])
    ensures Collect(Component, segs) == []
  {
    if segs != [] {
      AllDropped(segs[..|segs| - 1]);
      DroppedIff(segs[|segs| - 1]);
    }
  }

  /** What every component of a received path is like. */
  predicate Normal(c: Bytes) {
    && c != [] && c[|c| - 1] != DOT && c[|c| - 1] != SPACE
    && SpaceAtStart(c) == 0
    && forall b :: b in c ==> !IsSeparator(b) && !Illegal(b)
  }

  /** The bytes of a component are bytes of its segment, or underscores. */
  lemma ComponentBytes(seg: Bytes, b: byte)
    requires Component(seg).Some? && b in Component(seg).value
    ensures exists a :: a in seg && b == Legal(a)
  {
    var m := Mapped(Legal, seg);
    TrimLeaves(m);
    assert b in Trim(m);
    MappedFrom(Legal, seg, b);
  }

  lemma ComponentStart(seg: Bytes)
    requires Component(seg).Some?
    ensures SpaceAtStart(Component(seg).value) == 0
  {
    var t := Trim(Mapped(Legal, seg));
    TrimLeaves(Mapped(Legal, seg));
    PrefixStart(t, |TrimDots(t)|);
  }

  lemma ComponentIsNormal(seg: Bytes)
    requires SLASH !in seg && BACKSLASH !in seg && Component(seg).Some?
    ensures Normal(Component(seg).value)
  {
    var c := Component(seg).value;
    ComponentStart(seg);
    assert c != [] && c[|c| - 1] != DOT && c[|c| - 1] != SPACE;
    forall b | b in c ensures !IsSeparator(b) && !Illegal(b) {
      ComponentBytes(seg, b);
      var a :| a in seg && b == Legal(a);
      LegalByte(a);
    }
  }

  lemma LegalByte(a: byte)
    requires a != SLASH && a != BACKSLASH
    ensures !IsSeparator(Legal(a)) && !Illegal(Legal(a))
  {
  }

  lemma SegmentsAreFree(rel: Bytes, i: nat)
    requires i < |Segments(rel)|
    ensures SLASH !in Segments(rel)[i] && BACKSLASH !in Segments(rel)[i]
  {
    var p := StripDriveOrUNC(Trim(rel));
    SlashesOnly(p);
    SplitBytes(Mapped(Slashed, p), SLASH, i);
  }

  lemma SlashesOnly(p: Bytes)
    ensures BACKSLASH !in Mapped(Slashed, p)
  {
  }

  lemma {:induction false} SplitBytes(s: Bytes, sep: byte, i: nat)
    requires i < |Split(s, sep)|
    ensures forall b :: b in Split(s, sep)[i] ==> b in s
    decreases |s|
  {
    var k := IndexByte(s, sep);
    if k >= 0 && i > 0 { SplitBytes(s[k + 1..], sep, i - 1); }
  }

  /** No component is empty, a dot name, or holds a separator or an illegal character. */
  lemma ComponentsAreNormal(rel: Bytes, k: nat)
    requires k < |Components(rel)|
    ensures Normal(Components(rel)[k])
  {
    CollectFrom(Component, Segments(rel), k);
    var i :| 0 <= i < |Segments(rel)| && Component(Segments(rel)[i]) == Some(Components(rel)[k]);
    SegmentsAreFree(rel, i);
    ComponentIsNormal(Segments(rel)[i]);
  }

  // ---- once is enough, or is it ----

  lemma NormalIsKept(c: Bytes)
    requires Normal(c) && SpaceAtEnd(c) == 0
    ensures Component(c) == Some(c)
  {
    NormalIsLegal(c);
    TrimKeepsIff(c);
    assert c[|c| - 1] != DOT;
    assert c != [DOT] && c != [DOT, DOT];
    assert TrimDots(c) == c;
  }

  lemma NormalIsLegal(c: Bytes)
    requires Normal(c)
    ensures Mapped(Legal, c) == c
  {
    forall b | b in c ensures Legal(b) == b {
      assert !Illegal(b);
    }
    MapsToItself(Legal, c);
  }

  lemma NormalIsCut(c: Bytes)
    requires Normal(c) && SpaceAtEnd(c) > 0
    ensures Component(c).Some? ==> |Component(c).value| < |c|
  {
    NormalIsLegal(c);
    TrimShrinks(c);
  }

  ghost predicate AllNormal(parts: seq<Bytes>) {
    forall i :: 0 <= i < |parts| ==> Normal(parts[i])
  }

  lemma JoinStart(parts: seq<Bytes>)
    requires AllNormal(parts) && parts != []
    ensures var s := Join(parts, SLASH); s != [] && SpaceAtStart(s) == 0 && s[0] == parts[0][0]
  {
    if |parts| > 1 { StartIsLocal(parts[0], SLASH, Join(parts[1..], SLASH)); }
  }

  lemma JoinEndMore(front: seq<Bytes>, last: Bytes)
    requires front != [] && last != []
    ensures SpaceAtEnd(Join(front + [last], SLASH)) == SpaceAtEnd(last)
  {
    JoinSnoc(front, last, SLASH);
    EndIsLocal(Join(front, SLASH), SLASH, last);
  }

  lemma JoinEnd(parts: seq<Bytes>)
    requires AllNormal(parts) && parts != []
    ensures SpaceAtEnd(Join(parts, SLASH)) == SpaceAtEnd(parts[|parts| - 1])
  {
    var n := |parts| - 1;
    if n > 0 {
      assert Normal(parts[n]);
      JoinEndMore(parts[..n], parts[n]);
      FrontAndLast(parts);
    }
  }

  lemma FrontAndLast(parts: seq<Bytes>)
    requires parts != []
    ensures parts == parts[..|parts| - 1] + [parts[|parts| - 1]]
  {
  }

  lemma {:induction false} JoinBytes(parts: seq<Bytes>, b: byte)
    requires AllNormal(parts) && b in Join(parts, SLASH)
    ensures b == SLASH || (!IsSeparator(b) && !Illegal(b))
  {
    if |parts| == 1 {
      assert b in parts[0];
    } else if b !in parts[0] && b != SLASH {
      JoinBytes(parts[1..], b);
    }
  }

  lemma SegmentsOfPlain(s: Bytes)
    requires s != [] && NoEdgeSpace(s) && BACKSLASH !in s && COLON !in s && s[0] != SLASH
    ensures Segments(s) == Split(s, SLASH)
  {
    TrimKeepsIff(s);
    NothingToStrip(s);
    MapsToItself(Slashed, s);
  }

  lemma NothingToStrip(s: Bytes)
    requires s != [] && BACKSLASH !in s && COLON !in s && s[0] != SLASH
    ensures StripDriveOrUNC(s) == s
  {
    assert s[0] in s;
    assert |s| >= 2 ==> s[1] in s;
  }

  /** A joined path has no prefix to strip and no backslash, so it splits into what was joined. */
  lemma SegmentsOfJoin(parts: seq<Bytes>)
    requires AllNormal(parts) && parts != [] && SpaceAtEnd(parts[|parts| - 1]) == 0
    ensures Segments(Join(parts, SLASH)) == parts
  {
    var s := Join(parts, SLASH);
    JoinStart(parts);
    JoinEnd(parts);
    assert parts[0][0] in parts[0];
    forall b | b in s ensures b != BACKSLASH && b != COLON { JoinBytes(parts, b); }
    SegmentsOfPlain(s);
    SplitOfJoin(parts, SLASH);
  }

  lemma ComponentShrinks(seg: Bytes)
    ensures Component(seg).Some? ==> |Component(seg).value| <= |seg|
  {
    TrimShrinks(Mapped(Legal, seg));
  }

  lemma StripShrinks(p: Bytes)
    ensures |StripDriveOrUNC(p)| <= |p|
  {
  }

  lemma SanitizedShrinks(rel: Bytes)
    ensures |Sanitized(rel)| <= |Trim(rel)|
  {
    StripShrinks(Trim(rel));
    var m := Mapped(Slashed, StripDriveOrUNC(Trim(rel)));
    var segs := Split(m, SLASH);
    JoinOfSplit(m, SLASH);
    JoinSize(segs, SLASH);
    forall i | 0 <= i < |segs| && Component(segs[i]).Some? ensures |Component(segs[i]).value| <= |segs[i]| {
      ComponentShrinks(segs[i]);
    }
    CollectSize(Component, segs);
    if Collect(Component, segs) != [] { JoinSize(Collect(Component, segs), SLASH); }
  }

  lemma NothingStaysNothing()
    ensures Sanitized([]) == []
  {
    SanitizedShrinks([]);
  }

  /** Sanitising once more changes nothing exactly if no component ends in white space. */
  lemma IdempotentByComponents(rel: Bytes)
    ensures Sanitized(Sanitized(rel)) == Sanitized(rel) <==>
            forall k :: 0 <= k < |Components(rel)| ==> SpaceAtEnd(Components(rel)[k]) == 0
  {
    var parts := Components(rel);
    forall k | 0 <= k < |parts| ensures Normal(parts[k]) { ComponentsAreNormal(rel, k); }
    if parts == [] {
      NothingStaysNothing();
    } else {
      TwiceIff(parts);
    }
  }

  lemma KeptIff(parts: seq<Bytes>)
    requires AllNormal(parts)
    ensures (forall k :: 0 <= k < |parts| ==> SpaceAtEnd(parts[k]) == 0) ==> Collect(Component, parts) == parts
    ensures Size(Collect(Component, parts)) == Size(parts) ==> forall k :: 0 <= k < |parts| ==> SpaceAtEnd(parts[k]) == 0
  {
    if forall k :: 0 <= k < |parts| ==> SpaceAtEnd(parts[k]) == 0 {
      forall i | 0 <= i < |parts| ensures Component(parts[i]) == Some(parts[i]) { NormalIsKept(parts[i]); }
      CollectAll(Component, parts);
    }
    forall i | 0 <= i < |parts|
      ensures Component(parts[i]).Some? ==> |Component(parts[i]).value| <= |parts[i]|
      ensures SpaceAtEnd(parts[i]) > 0 && Component(parts[i]).Some? ==> |Component(parts[i]).value| < |parts[i]|
    {
      ComponentShrinks(parts[i]);
      if SpaceAtEnd(parts[i]) > 0 { NormalIsCut(parts[i]); }
    }
    CollectSize(Component, parts);
  }

  lemma TwiceIff(parts: seq<Bytes>)
    requires AllNormal(parts) && parts != []
    ensures Sanitized(Join(parts, SLASH)) == Join(parts, SLASH) <==>
            forall k :: 0 <= k < |parts| ==> SpaceAtEnd(parts[k]) == 0
  {
    var s := Join(parts, SLASH);
    JoinEnd(parts);
    JoinSize(parts, SLASH);
    if SpaceAtEnd(parts[|parts| - 1]) > 0 {
      TrimShrinks(s);
      SanitizedShrinks(s);
    } else {
      SegmentsOfJoin(parts);
      KeptIff(parts);
      if Components(s) != [] { JoinSize(Components(s), SLASH); }
      JoinStart(parts);
    }
  }

  // ---- what the input must look like for that ----

  predicate IsDots(d: Bytes) {
    forall i :: 0 <= i < |d| ==> d[i] == DOT || d[i] == SPACE
  }

  /** s is a name, a white-space character beyond ASCII, and final dots and spaces that hide it. */
  ghost predicate Hides(s: Bytes, x: Bytes, w: Bytes, d: Bytes) {
    s == x + w + d && x != [] && |w| > 1 && IsSpace(w) && d != [] && IsDots(d)
  }

  ghost predicate HidesSpace(seg: Bytes) {
    exists x, w, d :: Hides(Trim(Mapped(Legal, seg)), x, w, d)
  }

  lemma {:induction false} TrimDotsOf(c: Bytes, d: Bytes)
    requires c != [] && c[|c| - 1] != DOT && c[|c| - 1] != SPACE && IsDots(d)
    ensures TrimDots(c + d) == c
    decreases |d|
  {
    if d == [] {
      assert c + d == c;
    } else {
      var n := |d| - 1;
      assert (c + d)[..|c + d| - 1] == c + d[..n];
      TrimDotsOf(c, d[..n]);
    }
  }

  lemma SpaceEndsHigh(w: Bytes)
    requires |w| > 1 && IsSpace(w)
    ensures |w| <= 3 && w[|w| - 1] >= 128
  {
  }

  lemma HiddenEnd(x: Bytes, w: Bytes)
    requires |w| > 1 && IsSpace(w)
    ensures SpaceAtEnd(x + w) > 0
  {
    assert (x + w)[|x + w| - |w|..] == w;
    SpaceEndsHigh(w);
    assert SpaceInLast(x + w, |w|);
  }

  lemma HiddenIsUncovered(seg: Bytes, x: Bytes, w: Bytes, d: Bytes)
    requires Hides(Trim(Mapped(Legal, seg)), x, w, d)
    ensures Component(seg) == Some(x + w) && SpaceAtEnd(x + w) > 0
  {
    var s := Trim(Mapped(Legal, seg));
    SpaceEndsHigh(w);
    assert (x + w)[|x + w| - 1] == w[|w| - 1];
    TrimDotsOf(x + w, d);
    HiddenEnd(x, w);
    assert s[|x + w| - 1] >= 128;
  }

  lemma StartOfSpace(w: Bytes, d: Bytes)
    requires |w| > 1 && IsSpace(w)
    ensures SpaceAtStart(w + d) > 0
  {
    SpaceEndsHigh(w);
    assert (w + d)[..|w|] == w;
  }

  lemma LegalHasNoControl(seg: Bytes, b: byte)
    requires b in Trim(Mapped(Legal, seg))
    ensures b >= 32
  {
    TrimLeaves(Mapped(Legal, seg));
    MappedFrom(Legal, seg, b);
  }

  lemma WideEnd(c: Bytes)
    requires c != [] && c[|c| - 1] > 32 && SpaceAtEnd(c) > 0
    ensures SpaceAtEnd(c) > 1
  {
    assert c[|c| - 1..] == [c[|c| - 1]];
  }

  lemma SomethingBefore(x: Bytes, w: Bytes, d: Bytes)
    requires SpaceAtStart(x + w + d) == 0 && |w| > 1 && IsSpace(w)
    ensures x != []
  {
    StartOfSpace(w, d);
    assert [] + w + d == w + d;
  }

  lemma SomethingBehind(c: Bytes, d: Bytes)
    requires SpaceAtEnd(c + d) == 0 && SpaceAtEnd(c) > 0
    ensures d != []
  {
    assert c + [] == c;
  }

  lemma ComponentLast(seg: Bytes)
    requires Component(seg).Some?
    ensures var c := Component(seg).value; c != [] && c[|c| - 1] > 32
  {
    var s, c := Trim(Mapped(Legal, seg)), Component(seg).value;
    assert c[|c| - 1] == s[|c| - 1];
    LegalHasNoControl(seg, c[|c| - 1]);
  }

  lemma ComponentParts(seg: Bytes)
    requires Component(seg).Some?
    ensures var s, c := Trim(Mapped(Legal, seg)), Component(seg).value;
            && |c| <= |s| && s == c + s[|c|..] && IsDots(s[|c|..]) && NoEdgeSpace(s)
  {
    TrimLeaves(Mapped(Legal, seg));
  }

  lemma EndWasHidden(seg: Bytes)
    requires Component(seg).Some? && SpaceAtEnd(Component(seg).value) > 0
    ensures HidesSpace(seg)
  {
    var s, c := Trim(Mapped(Legal, seg)), Component(seg).value;
    ComponentParts(seg);
    ComponentLast(seg);
    WideEnd(c);
    HiddenBehind(s, c, s[|c|..]);
  }

  lemma HiddenBehind(s: Bytes, c: Bytes, d: Bytes)
    requires s == c + d && IsDots(d) && NoEdgeSpace(s) && SpaceAtEnd(c) > 1
    ensures exists x, w :: Hides(s, x, w, d)
  {
    var n := SpaceAtEnd(c);
    var x, w := c[..|c| - n], c[|c| - n..];
    assert c == x + w;
    SomethingBefore(x, w, d);
    SomethingBehind(c, d);
    assert Hides(s, x, w, d);
  }

  /** A segment ends in white space after sanitising exactly if it hid it. */
  lemma HidesSpaceIff(seg: Bytes)
    ensures HidesSpace(seg) <==> Component(seg).Some? && SpaceAtEnd(Component(seg).value) > 0
  {
    if HidesSpace(seg) {
      var x, w, d :| Hides(Trim(Mapped(Legal, seg)), x, w, d);
      HiddenIsUncovered(seg, x, w, d);
    } else if Component(seg).Some? && SpaceAtEnd(Component(seg).value) > 0 {
      EndWasHidden(seg);
    }
  }

  /** Sanitising once more changes nothing exactly if no segment of the input is a name with white space
      beyond ASCII behind it, hidden by final dots and spaces. */
  lemma IdempotentIff(rel: Bytes)
    ensures Sanitized(Sanitized(rel)) == Sanitized(rel) <==> forall seg :: seg in Segments(rel) ==> !HidesSpace(seg)
  {
    var segs := Segments(rel);
    IdempotentByComponents(rel);
    forall seg | seg in segs
      ensures HidesSpace(seg) <==> Component(seg).Some? && SpaceAtEnd(Component(seg).value) > 0
    {
      HidesSpaceIff(seg);
    }
    if forall seg :: seg in segs ==> !HidesSpace(seg) {
      forall k | 0 <= k < |Components(rel)| ensures SpaceAtEnd(Components(rel)[k]) == 0 {
        CollectFrom(Component, segs, k);
        var i :| 0 <= i < |segs| && Component(segs[i]) == Some(Components(rel)[k]);
        assert segs[i] in segs;
      }
    } else {
      var seg :| seg in segs && HidesSpace(seg);
      CollectHas(Component, segs, seg);
    }
  }

  predicate IsAscii(s: Bytes) {
    forall b :: b in s ==> b < 128
  }

  lemma AsciiComponent(seg: Bytes)
    requires IsAscii(seg) && Component(seg).Some?
    ensures IsAscii(Component(seg).value)
  {
    forall b | b in Component(seg).value ensures b < 128 {
      ComponentBytes(seg, b);
    }
  }

  lemma AsciiStripped(rel: Bytes)
    requires IsAscii(rel)
    ensures IsAscii(StripDriveOrUNC(Trim(rel)))
  {
    TrimLeaves(rel);
    var k := StripLeaves(Trim(rel));
    forall b | b in Trim(rel)[k..] ensures b in Trim(rel) { InTail(Trim(rel), k, b); }
  }

  lemma InTail(s: Bytes, k: nat, b: byte)
    requires k <= |s| && b in s[k..]
    ensures b in s
  {
  }

  lemma StripLeaves(p: Bytes) returns (k: nat)
    ensures k <= |p| && StripDriveOrUNC(p) == p[k..]
  {
    k := |p| - |StripDriveOrUNC(p)|;
  }

  lemma AsciiSlashed(p: Bytes)
    requires IsAscii(p)
    ensures IsAscii(Mapped(Slashed, p))
  {
    forall b | b in Mapped(Slashed, p) ensures b < 128 {
      MappedFrom(Slashed, p, b);
    }
  }

  lemma AsciiSegments(rel: Bytes, i: nat)
    requires IsAscii(rel) && i < |Segments(rel)|
    ensures IsAscii(Segments(rel)[i])
  {
    var m := Mapped(Slashed, StripDriveOrUNC(Trim(rel)));
    AsciiStripped(rel);
    AsciiSlashed(StripDriveOrUNC(Trim(rel)));
    assert Segments(rel) == Split(m, SLASH);
    SplitBytes(m, SLASH, i);
  }

  /** On ASCII input once is enough. */
  lemma IdempotentOnAscii(rel: Bytes)
    requires IsAscii(rel)
    ensures Sanitized(Sanitized(rel)) == Sanitized(rel)
  {
    IdempotentByComponents(rel);
    forall k | 0 <= k < |Components(rel)| ensures SpaceAtEnd(Components(rel)[k]) == 0 {
      ComponentsAreNormal(rel, k);
      CollectFrom(Component, Segments(rel), k);
      var i :| 0 <= i < |Segments(rel)| && Component(Segments(rel)[i]) == Some(Components(rel)[k]);
      AsciiSegments(rel, i);
      AsciiComponent(Segments(rel)[i]);
      AsciiEnd(Components(rel)[k]);
    }
  }

  lemma AsciiEnd(c: Bytes)
    requires Normal(c) && IsAscii(c)
    ensures SpaceAtEnd(c) == 0
  {
    assert c[|c| - 1] in c;
  }

  lemma TrimsOneDot(c: Bytes)
    requires Normal(c)
    ensures TrimDots(c + [DOT]) == c
  {
    assert (c + [DOT])[..|c|] == c;
  }

  lemma DotIsPlain(c: Bytes)
    requires Normal(c)
    ensures NoEdgeSpace(c + [DOT]) && Mapped(Legal, c + [DOT]) == c + [DOT]
  {
    forall b | b in c + [DOT] ensures Legal(b) == b { assert b in c || b == DOT; }
    MapsToItself(Legal, c + [DOT]);
    StartIsLocal(c, DOT, []);
    assert c + [DOT] + [] == c + [DOT];
    VisibleEnd(c + [DOT]);
  }

  lemma DotIsDropped(c: Bytes)
    requires Normal(c)
    ensures NoEdgeSpace(c + [DOT]) && Component(c + [DOT]) == Some(c)
  {
    var s := c + [DOT];
    DotIsPlain(c);
    TrimKeepsIff(s);
    TrimsOneDot(c);
    assert s[0] == c[0];
    assert s != [DOT] && s != [DOT, DOT];
  }

  lemma SeparatorFree(c: Bytes)
    requires Normal(c)
    ensures Segments(c + [DOT]) == [c + [DOT]]
  {
    var s := c + [DOT];
    DotIsDropped(c);
    forall b | b in s ensures b != SLASH && b != BACKSLASH && b != COLON { assert b == DOT || b in c; }
    assert s[0] in s;
    SegmentsOfPlain(s);
  }

  /** A normal name is what is left of it with a dot behind it. If the name ends in white space, as in a
      no-break space, sanitising once more takes that away as well. */
  lemma FinalDot(c: Bytes)
    requires Normal(c)
    ensures Sanitized(c + [DOT]) == c
    ensures Sanitized(c) == c <==> SpaceAtEnd(c) == 0
  {
    DotIsDropped(c);
    SeparatorFree(c);
    CollectOne(Component, c + [DOT]);
    assert Components(c + [DOT]) == [c];
    IdempotentByComponents(c + [DOT]);
  }

  lemma NoBreakSpaceNeedsTwo()
    ensures var c: Bytes := [97, 0xC2, 0xA0];
            Sanitized(c + [DOT]) == c && Sanitized(c) != c
  {
    var c: Bytes := [97, 0xC2, 0xA0];
    assert c[1..] == [0xC2, 0xA0];
    assert SpaceInLast(c, 2);
    FinalDot(c);
  }
}
