/** Where a received file goes: below the save directory, under a name nothing has yet. */
module SavePath {
  import opened Bytes
  import opened Text
  import opened Parts
  import opened Sanitize

  const DOTDOT: Bytes := [DOT, DOT]

  // ---- lexical paths ----

  /** A name that Clean leaves alone. */
  predicate Real(p: Bytes) {
    p != [] && p != [DOT] && p != DOTDOT && SLASH !in p
  }

  ghost predicate AllReal(parts: seq<Bytes>) {
    forall i :: 0 <= i < |parts| ==> Real(parts[i])
  }

  /** Drops empty and dot names; a double dot takes back the name before it. */
  function Resolve(parts: seq<Bytes>): seq<Bytes> {
    if parts == [] then []
    else
      var front := Resolve(parts[..|parts| - 1]);
      var last := parts[|parts| - 1];
      if last == [] || last == [DOT] then front
      else if last == DOTDOT then (if front == [] then [] else front[..|front| - 1])
      else front + [last]
  }

  function PathOf(names: seq<Bytes>): Bytes {
    [SLASH] + Join(names, SLASH)
  }

  predicate Rooted(p: Bytes) {
    p != [] && p[0] == SLASH
  }

  function NamesOf(p: Bytes): seq<Bytes>
    requires Rooted(p)
  {
    Resolve(Split(p[1..], SLASH))
  }

  /** filepath.Clean on a rooted path. */
  function Clean(p: Bytes): (r: Bytes)
    requires Rooted(p)
    ensures Rooted(r)
  {
    PathOf(NamesOf(p))
  }

  lemma {:induction false} ResolvedIsReal(parts: seq<Bytes>)
    requires Free(parts, SLASH)
    ensures AllReal(Resolve(parts))
  {
    if parts != [] { ResolvedIsReal(parts[..|parts| - 1]); }
  }

  lemma {:induction false} ResolveBehind(a: seq<Bytes>, b: seq<Bytes>)
    requires AllReal(b)
    ensures Resolve(a + b) == Resolve(a) + b
  {
    if b == [] {
      assert a + b == a;
    } else {
      var n := |b| - 1;
      assert (a + b)[..|a + b| - 1] == a + b[..n];
      ResolveBehind(a, b[..n]);
      assert Resolve(a) + b[..n] + [b[n]] == Resolve(a) + b;
    }
  }

  lemma {:induction false} ResolveFrom(a: seq<Bytes>, a': seq<Bytes>, b: seq<Bytes>)
    requires Resolve(a) == Resolve(a')
    ensures Resolve(a + b) == Resolve(a' + b)
  {
    if b == [] {
      assert a + b == a && a' + b == a';
    } else {
      var n := |b| - 1;
      ResolveFrom(a, a', b[..n]);
      ResolveSame(a + b[..n], a' + b[..n], b[n]);
      assert b == b[..n] + [b[n]];
      Associate(a, b[..n], [b[n]]);
      Associate(a', b[..n], [b[n]]);
    }
  }

  lemma ResolveSame(a: seq<Bytes>, a': seq<Bytes>, x: Bytes)
    requires Resolve(a) == Resolve(a')
    ensures Resolve(a + [x]) == Resolve(a' + [x])
  {
    assert (a + [x])[..|a|] == a && (a' + [x])[..|a'|] == a';
  }

  lemma ResolveMore(a: seq<Bytes>, x: Bytes)
    ensures x == [] || x == [DOT] ==> Resolve(a + [x]) == Resolve(a)
    ensures x == DOTDOT ==> Resolve(a + [x]) == if Resolve(a) == [] then [] else Resolve(a)[..|Resolve(a)| - 1]
    ensures Real(x) ==> Resolve(a + [x]) == Resolve(a) + [x]
  {
    assert (a + [x])[..|a|] == a;
  }

  /** What Clean does to a path: empty and dot names go, a double dot goes together with the name before it, and
      above the root there is nothing. */
  lemma CleanLaws(a: seq<Bytes>, name: Bytes, b: seq<Bytes>)
    requires Real(name)
    ensures Resolve(a + [[]] + b) == Resolve(a + b) && Resolve(a + [[DOT]] + b) == Resolve(a + b)
    ensures Resolve(a + [name] + [DOTDOT] + b) == Resolve(a + b)
    ensures Resolve([DOTDOT] + b) == Resolve(b)
    ensures Resolve(a + [name]) == Resolve(a) + [name]
  {
    ResolveMore(a, []);
    ResolveFrom(a + [[]], a, b);
    ResolveMore(a, [DOT]);
    ResolveFrom(a + [[DOT]], a, b);
    ResolveMore(a, name);
    ResolveMore(a + [name], DOTDOT);
    ResolveFrom(a + [name] + [DOTDOT], a, b);
    AboveRoot(b);
  }

  lemma AboveRoot(b: seq<Bytes>)
    ensures Resolve([DOTDOT] + b) == Resolve(b)
  {
    var none: seq<Bytes> := [];
    ResolveMore(none, DOTDOT);
    assert none + [DOTDOT] == [DOTDOT] && none + b == b;
    ResolveFrom([DOTDOT], none, b);
  }

  lemma ResolveReal(b: seq<Bytes>)
    requires AllReal(b)
    ensures Resolve(b) == b
  {
    ResolveBehind([], b);
    assert [] + b == b;
  }

  const EMPTY: Bytes := []

  lemma ResolveEmpty()
    ensures Resolve([EMPTY]) == []
  {
    assert [EMPTY][..0] == [];
  }

  lemma NamesAreReal(p: Bytes)
    requires Rooted(p)
    ensures AllReal(NamesOf(p))
  {
    ResolvedIsReal(Split(p[1..], SLASH));
  }

  lemma NamesOfPath(names: seq<Bytes>)
    requires AllReal(names)
    ensures Rooted(PathOf(names)) && NamesOf(PathOf(names)) == names
  {
    var p := PathOf(names);
    assert p[1..] == Join(names, SLASH);
    if names == [] {
      assert Split([], SLASH) == [EMPTY];
      ResolveEmpty();
    } else {
      SplitOfJoin(names, SLASH);
      ResolveReal(names);
    }
  }

  lemma CleanTwice(p: Bytes)
    requires Rooted(p)
    ensures Clean(Clean(p)) == Clean(p)
  {
    NamesAreReal(p);
    NamesOfPath(NamesOf(p));
  }

  /** filepath.Join of a clean directory and further names. */
  function JoinPath(dir: Bytes, rel: Bytes): Bytes
    requires Rooted(dir)
  {
    Clean(dir + [SLASH] + rel)
  }

  lemma NamesBelowRoot(rel: seq<Bytes>)
    requires AllReal(rel) && rel != []
    ensures NamesOf(PathOf([]) + [SLASH] + Join(rel, SLASH)) == rel
  {
    var p := PathOf([]) + [SLASH] + Join(rel, SLASH);
    var parts := [EMPTY] + rel;
    assert parts[1..] == rel;
    assert Join(parts, SLASH) == EMPTY + [SLASH] + Join(rel, SLASH);
    assert p[1..] == Join(parts, SLASH);
    SplitOfJoin(parts, SLASH);
    ResolveEmpty();
    ResolveBehind([EMPTY], rel);
    assert [] + rel == rel;
  }

  lemma NamesBelow(dir: seq<Bytes>, rel: seq<Bytes>)
    requires AllReal(dir) && AllReal(rel) && dir != [] && rel != []
    ensures NamesOf(PathOf(dir) + [SLASH] + Join(rel, SLASH)) == dir + rel
  {
    var p := PathOf(dir) + [SLASH] + Join(rel, SLASH);
    JoinAppend(dir, rel, SLASH);
    assert p[1..] == Join(dir + rel, SLASH);
    SplitOfJoin(dir + rel, SLASH);
    ResolveReal(dir + rel);
  }

  lemma NamesOfJoin(dir: seq<Bytes>, rel: seq<Bytes>)
    requires AllReal(dir) && AllReal(rel) && rel != []
    ensures NamesOf(PathOf(dir) + [SLASH] + Join(rel, SLASH)) == dir + rel
  {
    if dir == [] {
      NamesBelowRoot(rel);
      assert dir + rel == rel;
    } else {
      NamesBelow(dir, rel);
    }
  }

  predicate IsWithin(target: Bytes, base: Bytes) {
    base != [] && (target == base || HasPrefix(target, base + [SLASH]))
  }

  /** The check refuses everything below the root directory, whose path already ends in a separator. */
  lemma WithinIff(dir: seq<Bytes>, rel: seq<Bytes>)
    requires AllReal(dir) && AllReal(rel) && rel != []
    ensures IsWithin(PathOf(dir + rel), PathOf(dir)) <==> dir != []
  {
    var t, b := PathOf(dir + rel), PathOf(dir);
    if dir == [] {
      assert dir + rel == rel;
      FirstByte(rel);
      assert t[1] == Join(rel, SLASH)[0] && (b + [SLASH])[1] == SLASH;
      assert t[..2][1] == t[1];
      assert |t| > |b|;
    } else {
      JoinAppend(dir, rel, SLASH);
      assert t == b + [SLASH] + Join(rel, SLASH);
    }
  }

  lemma FirstByte(rel: seq<Bytes>)
    requires AllReal(rel) && rel != []
    ensures Join(rel, SLASH) != [] && Join(rel, SLASH)[0] != SLASH
  {
    assert rel[0][0] in rel[0];
  }

  // ---- names for a second file ----

  function LastIndexByte(s: Bytes, c: byte): (i: int)
    ensures -1 <= i < |s|
    ensures i < 0 ==> c !in s
    ensures i >= 0 ==> s[i] == c && forall k :: i < k < |s| ==> s[k] != c
  {
    if s == [] then -1
    else if s[|s| - 1] == c then |s| - 1
    else LastIndexByte(s[..|s| - 1], c)
  }

  function Dir(p: Bytes): Bytes
    requires Rooted(p)
  {
    var i := LastIndexByte(p, SLASH);
    Clean(if i < 0 then [SLASH] else p[..i + 1])
  }

  function Base(p: Bytes): Bytes {
    p[LastIndexByte(p, SLASH) + 1..]
  }

  function Ext(name: Bytes): (e: Bytes)
    ensures |e| <= |name| && e == name[|name| - |e|..]
  {
    var i := LastIndexByte(name, DOT);
    if i < 0 then [] else name[i..]
  }

  function Stem(name: Bytes): Bytes {
    name[..|name| - |Ext(name)|]
  }

  const OPEN: Bytes := [32, 40]
  const CLOSE: Bytes := [41]

  function Numbered(name: Bytes, i: nat): Bytes {
    Stem(name) + OPEN + Digits(i) + CLOSE + Ext(name)
  }

  /** The i-th name tried for a path; the first is the path itself. */
  function Slot(path: Bytes, i: nat): Bytes
    requires Rooted(path)
  {
    if i == 0 then path else JoinPath(Dir(path), Numbered(Base(path), i))
  }

  const TRIES := 10000

  ghost predicate AllTaken(path: Bytes, n: nat, taken: set<Bytes>)
    requires Rooted(path)
  {
    forall j :: 0 <= j < n ==> Slot(path, j) in taken
  }

  /** r is the k-th name tried, the first that is free; or none is, and r is the path itself. */
  ghost predicate IsChosen(path: Bytes, taken: set<Bytes>, r: Bytes, k: nat)
    requires Rooted(path)
  {
    r == Slot(path, k) && if r in taken then k == 0 && AllTaken(path, TRIES, taken) else k < TRIES && AllTaken(path, k, taken)
  }

  ghost predicate Chosen(path: Bytes, taken: set<Bytes>, r: Bytes)
    requires Rooted(path)
  {
    exists k :: IsChosen(path, taken, r, k)
  }

  method DeConflict(path: Bytes, taken: set<Bytes>) returns (r: Bytes)
    requires Rooted(path)
    ensures Chosen(path, taken, r)
  {
    if path !in taken {
      assert IsChosen(path, taken, path, 0);
      return path;
    }
    var i := 1;
    while i < TRIES
      invariant 1 <= i <= TRIES && AllTaken(path, i, taken)
    {
      var candidate := JoinPath(Dir(path), Numbered(Base(path), i));
      assert candidate == Slot(path, i);
      if candidate !in taken {
        assert IsChosen(path, taken, candidate, i);
        return candidate;
      }
      i := i + 1;
    }
    assert IsChosen(path, taken, path, 0);
    return path;
  }

  lemma LastIndexIs(a: Bytes, c: byte, b: Bytes)
    requires c !in b
    ensures LastIndexByte(a + [c] + b, c) == |a|
  {
    var s := a + [c] + b;
    assert s[|a|] == c;
    assert forall k :: |a| < k < |s| ==> s[k] in b;
  }

  lemma SplitPath(dir: seq<Bytes>, name: Bytes)
    requires AllReal(dir) && Real(name)
    ensures Dir(PathOf(dir + [name])) == PathOf(dir) && Base(PathOf(dir + [name])) == name
  {
    if dir == [] {
      assert dir + [name] == [name];
      SplitTopPath(name);
    } else {
      JoinSnoc(dir, name, SLASH);
      assert PathOf(dir + [name]) == PathOf(dir) + [SLASH] + name;
      SplitDeepPath(dir, name);
    }
  }

  lemma SplitTopPath(name: Bytes)
    requires Real(name)
    ensures Dir(PathOf([name])) == PathOf([]) && Base(PathOf([name])) == name
  {
    var p := PathOf([name]);
    assert p == [] + [SLASH] + name;
    LastIndexIs([], SLASH, name);
    assert p[..1] == [SLASH] == PathOf([]);
    NamesOfPath([]);
  }

  lemma SplitDeepPath(dir: seq<Bytes>, name: Bytes)
    requires AllReal(dir) && dir != [] && Real(name)
    ensures var p := PathOf(dir) + [SLASH] + name; Rooted(p) && Dir(p) == PathOf(dir) && Base(p) == name
  {
    var p := PathOf(dir) + [SLASH] + name;
    LastIndexIs(PathOf(dir), SLASH, name);
    assert p[..|PathOf(dir)| + 1] == PathOf(dir) + [SLASH];
    NamesOfTrailing(dir);
  }

  lemma NamesOfTrailing(dir: seq<Bytes>)
    requires AllReal(dir) && dir != []
    ensures NamesOf(PathOf(dir) + [SLASH]) == dir
  {
    var p := PathOf(dir) + [SLASH];
    var parts := dir + [[]];
    JoinSnoc(dir, [], SLASH);
    assert p[1..] == Join(parts, SLASH);
    SplitOfJoin(parts, SLASH);
    assert parts[..|dir|] == dir;
    ResolveReal(dir);
  }

  /** The number stands before the last dot and what follows it, or at the end of a name without a dot. */
  lemma NumberedIs(stem: Bytes, ext: Bytes, i: nat)
    requires DOT !in ext
    ensures Numbered(stem + [DOT] + ext, i) == stem + Ascii(" (") + Digits(i) + Ascii(")") + ([DOT] + ext)
    ensures DOT !in stem ==> Numbered(stem, i) == stem + Ascii(" (") + Digits(i) + Ascii(")")
  {
    var name := stem + [DOT] + ext;
    LastIndexIs(stem, DOT, ext);
    assert name[|stem|..] == [DOT] + ext && name[..|stem|] == stem;
    assert Ascii(" (") == OPEN && Ascii(")") == CLOSE;
    if DOT !in stem {
      NoExtension(stem);
      assert stem + OPEN + Digits(i) + CLOSE + [] == stem + OPEN + Digits(i) + CLOSE;
    }
  }

  lemma NoExtension(name: Bytes)
    requires DOT !in name
    ensures Ext(name) == [] && Stem(name) == name
  {
  }

  lemma NumberedIsReal(name: Bytes, i: nat)
    requires Real(name)
    ensures Real(Numbered(name, i)) && Numbered(name, i) != name
  {
    var s := Numbered(name, i);
    assert |s| > |name|;
    forall b | b in s ensures b != SLASH {
      assert b in Stem(name) || b in OPEN || b in Digits(i) || b in CLOSE || b in Ext(name);
      assert b in Stem(name) ==> b in name;
      assert b in Ext(name) ==> b in name;
    }
    assert |s| > 2;
  }

  function NameAt(name: Bytes, i: nat): Bytes {
    if i == 0 then name else Numbered(name, i)
  }

  lemma NameAtIsReal(name: Bytes, i: nat)
    requires Real(name)
    ensures Real(NameAt(name, i))
  {
    if i > 0 { NumberedIsReal(name, i); }
  }

  lemma SlotIs(dir: seq<Bytes>, name: Bytes, i: nat)
    requires AllReal(dir) && Real(name)
    ensures Slot(PathOf(dir + [name]), i) == PathOf(dir + [NameAt(name, i)])
  {
    if i > 0 {
      SplitPath(dir, name);
      NumberedIsReal(name, i);
      NamesOfJoin(dir, [Numbered(name, i)]);
      assert Join([Numbered(name, i)], SLASH) == Numbered(name, i);
    }
  }

  lemma NumbersDiffer(name: Bytes, i: nat, j: nat)
    requires Numbered(name, i) == Numbered(name, j)
    ensures i == j
  {
    var a := Stem(name) + OPEN;
    var z := CLOSE + Ext(name);
    assert Numbered(name, i) == a + Digits(i) + z && Numbered(name, j) == a + Digits(j) + z;
    assert (a + Digits(i) + z)[|a|..|a| + |Digits(i)|] == Digits(i);
    assert (a + Digits(j) + z)[|a|..|a| + |Digits(j)|] == Digits(j);
    ParseDigitsOfDigits(i);
    ParseDigitsOfDigits(j);
  }

  lemma NamesDiffer(name: Bytes, i: nat, j: nat)
    requires Real(name) && NameAt(name, i) == NameAt(name, j)
    ensures i == j
  {
    if i > 0 { NumberedIsReal(name, i); }
    if j > 0 { NumberedIsReal(name, j); }
    if i > 0 && j > 0 { NumbersDiffer(name, i, j); }
  }

  lemma PathsDiffer(dir: seq<Bytes>, x: Bytes, y: Bytes)
    requires AllReal(dir) && Real(x) && Real(y) && PathOf(dir + [x]) == PathOf(dir + [y])
    ensures x == y
  {
    SplitPath(dir, x);
    SplitPath(dir, y);
  }

  lemma SlotsDiffer(dir: seq<Bytes>, name: Bytes, i: nat, j: nat)
    requires AllReal(dir) && Real(name) && Slot(PathOf(dir + [name]), i) == Slot(PathOf(dir + [name]), j)
    ensures i == j
  {
    SlotIs(dir, name, i);
    SlotIs(dir, name, j);
    NameAtIsReal(name, i);
    NameAtIsReal(name, j);
    PathsDiffer(dir, NameAt(name, i), NameAt(name, j));
    NamesDiffer(name, i, j);
  }

  ghost predicate InDir(dir: seq<Bytes>, p: Bytes) {
    exists name :: Real(name) && p == PathOf(dir + [name])
  }

  function Parent(names: seq<Bytes>): seq<Bytes> {
    if names == [] then [] else names[..|names| - 1]
  }

  ghost function EntriesIn(dir: seq<Bytes>, taken: set<Bytes>): set<Bytes> {
    set p | p in taken && InDir(dir, p)
  }

  ghost function Image<T>(f: nat -> T, n: nat): set<T> {
    if n == 0 then {} else Image(f, n - 1) + {f(n - 1)}
  }

  lemma {:induction false} InImage<T>(f: nat -> T, n: nat, x: T) returns (k: nat)
    requires x in Image(f, n)
    ensures k < n && f(k) == x
  {
    if x == f(n - 1) { k := n - 1; } else { k := InImage(f, n - 1, x); }
  }

  lemma {:induction false} ImageSize<T>(f: nat -> T, n: nat)
    requires forall i, j :: f(i) == f(j) ==> i == j
    ensures |Image(f, n)| == n
  {
    if n > 0 {
      ImageSize(f, n - 1);
      if f(n - 1) in Image(f, n - 1) {
        var k := InImage(f, n - 1, f(n - 1));
      }
    }
  }

  lemma SubsetIsSmaller<T>(a: set<T>, b: set<T>)
    requires a <= b
    ensures |a| <= |b|
  {
    if a != {} {
      var x :| x in a;
      SubsetIsSmaller(a - {x}, b - {x});
    }
  }

  /** More places than the set has members: one place is outside it. */
  lemma Pigeonhole<T>(f: nat -> T, n: nat, s: set<T>) returns (k: nat)
    requires forall i, j :: f(i) == f(j) ==> i == j
    requires |s| < n
    ensures k < n && f(k) !in s
  {
    ImageSize(f, n);
    if Image(f, n) <= s { SubsetIsSmaller(Image(f, n), s); }
    var x :| x in Image(f, n) && x !in s;
    k := InImage(f, n, x);
  }

  /** Fewer entries than names to try leave one of the names free. */
  lemma SomeSlotIsFree(dir: seq<Bytes>, name: Bytes, taken: set<Bytes>)
    requires AllReal(dir) && Real(name)
    requires |EntriesIn(dir, taken)| < TRIES
    ensures !AllTaken(PathOf(dir + [name]), TRIES, taken)
  {
    var path := PathOf(dir + [name]);
    var slot := (i: nat) => Slot(path, i);
    forall i, j | slot(i) == slot(j) ensures i == j { SlotsDiffer(dir, name, i, j); }
    var k := Pigeonhole(slot, TRIES, EntriesIn(dir, taken));
    SlotIs(dir, name, k);
    NameAtIsReal(name, k);
    assert InDir(dir, Slot(path, k));
  }

  // ---- the whole mapping ----

  const UNNAMED: Bytes := [117, 110, 110, 97, 109, 101, 100]

  /** The names below the save directory: of the path, else of the base name, else a stand-in. */
  function RelNames(relPath: Bytes, baseName: Bytes): seq<Bytes> {
    if Components(relPath) != [] then Components(relPath)
    else if Components(baseName) != [] then Components(baseName)
    else [UNNAMED]
  }

  /** Names that a receiver can store as they are. */
  ghost predicate Plain(parts: seq<Bytes>) {
    AllNormal(parts) && forall i :: 0 <= i < |parts| ==> SpaceAtEnd(parts[i]) == 0
  }

  ghost predicate AllBlank(relPath: Bytes) {
    forall i :: 0 <= i < |Segments(relPath)| ==> Blank(Segments(relPath)[i])
  }

  lemma PlainComponents(parts: seq<Bytes>)
    requires Plain(parts) && parts != []
    ensures Components(Join(parts, SLASH)) == parts
  {
    SegmentsOfJoin(parts);
    forall i | 0 <= i < |parts| ensures Component(parts[i]) == Some(parts[i]) { NormalIsKept(parts[i]); }
    CollectAll(Component, parts);
  }

  /** A path of plain names is stored as it is, whatever the base name says. */
  lemma PlainPathIsKept(parts: seq<Bytes>, baseName: Bytes)
    requires Plain(parts) && parts != []
    ensures RelNames(Join(parts, SLASH), baseName) == parts
  {
    PlainComponents(parts);
  }

  lemma OnePlain(name: Bytes)
    requires Normal(name) && SpaceAtEnd(name) == 0
    ensures Plain([name]) && Join([name], SLASH) == name
  {
  }

  /** The base name counts only if nothing of the path is left, and then it does. */
  lemma BaseNameStandsIn(relPath: Bytes, baseName: Bytes)
    requires AllBlank(relPath) && Normal(baseName) && SpaceAtEnd(baseName) == 0
    ensures RelNames(relPath, baseName) == [baseName]
  {
    AllDropped(Segments(relPath));
    OnePlain(baseName);
    PlainComponents([baseName]);
  }

  /** The stand-in is used if nothing is left of either. */
  lemma UnnamedStandsIn(relPath: Bytes, baseName: Bytes)
    requires AllBlank(relPath) && AllBlank(baseName)
    ensures RelNames(relPath, baseName) == [Ascii("unnamed")]
  {
    AllDropped(Segments(relPath));
    AllDropped(Segments(baseName));
    UnnamedIs();
  }

  lemma UnnamedIs()
    ensures Ascii("unnamed") == UNNAMED
  {
  }

  lemma NormalIsReal(c: Bytes)
    requires Normal(c)
    ensures Real(c)
  {
    if SLASH in c { assert IsSeparator(SLASH); }
  }

  lemma ComponentsAreReal(rel: Bytes)
    ensures AllReal(Components(rel))
  {
    var parts := Components(rel);
    forall i | 0 <= i < |parts| ensures Real(parts[i]) {
      ComponentsAreNormal(rel, i);
      NormalIsReal(parts[i]);
    }
  }

  lemma UnnamedIsReal()
    ensures Real(UNNAMED) && AllReal([UNNAMED])
  {
    assert Real(UNNAMED);
  }

  lemma RelNamesAreReal(relPath: Bytes, baseName: Bytes)
    ensures AllReal(RelNames(relPath, baseName)) && RelNames(relPath, baseName) != []
  {
    ComponentsAreReal(relPath);
    ComponentsAreReal(baseName);
    UnnamedIsReal();
  }

  lemma SanitizedIsEmptyIff(rel: Bytes)
    ensures Sanitized(rel) == [] <==> Components(rel) == []
  {
    var parts := Components(rel);
    if parts != [] {
      forall k | 0 <= k < |parts| ensures Normal(parts[k]) { ComponentsAreNormal(rel, k); }
      JoinStart(parts);
    }
  }

  method RelText(relPath: Bytes, baseName: Bytes) returns (rel: Bytes)
    ensures rel == Join(RelNames(relPath, baseName), SLASH)
  {
    SanitizedIsEmptyIff(relPath);
    SanitizedIsEmptyIff(baseName);
    rel := SanitizeRelativePath(relPath);
    if rel == [] { rel := SanitizeRelativePath(baseName); }
    if rel == [] { rel := UNNAMED; }
  }

  lemma RootIff(dir: seq<Bytes>)
    requires AllReal(dir)
    ensures PathOf(dir) == [SLASH] <==> dir == []
  {
    if dir != [] { FirstByte(dir); }
  }

  lemma TargetIs(saveDir: Bytes, names: seq<Bytes>)
    requires Rooted(saveDir) && AllReal(names) && names != []
    ensures Clean(JoinPath(Clean(saveDir), Join(names, SLASH))) == PathOf(NamesOf(saveDir) + names)
  {
    var dir := NamesOf(saveDir);
    NamesAreReal(saveDir);
    NamesOfJoin(dir, names);
    NamesOfPath(dir + names);
  }

  /** Either the save directory is the root, which is refused, or the file lies strictly below it,
      in the place its names say, under the first free name. */
  method JoinSavePath(saveDir: Bytes, relPath: Bytes, baseName: Bytes, taken: set<Bytes>)
    returns (r: Option<Bytes>)
    requires Rooted(saveDir)
    ensures r.None? <==> Clean(saveDir) == [SLASH]
    ensures r.Some? ==> Chosen(PathOf(NamesOf(saveDir) + RelNames(relPath, baseName)), taken, r.value)
  {
    var rel := RelText(relPath, baseName);
    ghost var names := RelNames(relPath, baseName);
    RelNamesAreReal(relPath, baseName);
    var cleanSaveDir := Clean(saveDir);
    var joined := JoinPath(cleanSaveDir, rel);
    var cleanJoined := Clean(joined);
    TargetIs(saveDir, names);
    NamesAreReal(saveDir);
    WithinIff(NamesOf(saveDir), names);
    RootIff(NamesOf(saveDir));
    if !IsWithin(cleanJoined, cleanSaveDir) {
      return None;
    }
    var path := DeConflict(cleanJoined, taken);
    return Some(path);
  }

  lemma LastName(dir: seq<Bytes>, names: seq<Bytes>)
    requires names != []
    ensures dir + names == (dir + names[..|names| - 1]) + [names[|names| - 1]]
  {
  }

  /** Every name that can be chosen lies strictly below the save directory, so the second check that
      guards against an escape is never what stops one. */
  lemma ChosenIsBelow(saveDir: Bytes, relPath: Bytes, baseName: Bytes, taken: set<Bytes>, r: Bytes)
    requires Rooted(saveDir) && Clean(saveDir) != [SLASH]
    requires Chosen(PathOf(NamesOf(saveDir) + RelNames(relPath, baseName)), taken, r)
    ensures IsWithin(r, Clean(saveDir)) && r != Clean(saveDir)
  {
    var dir, names := NamesOf(saveDir), RelNames(relPath, baseName);
    var k :| IsChosen(PathOf(dir + names), taken, r, k);
    RelNamesAreReal(relPath, baseName);
    NamesAreReal(saveDir);
    RootIff(dir);
    SlotBelow(dir, names, k);
  }

  lemma SlotBelow(dir: seq<Bytes>, names: seq<Bytes>, k: nat)
    requires AllReal(dir) && AllReal(names) && dir != [] && names != []
    ensures var p := Slot(PathOf(dir + names), k);
            IsWithin(p, PathOf(dir)) && p != PathOf(dir)
  {
    var n := |names| - 1;
    LastName(dir, names);
    SlotIs(dir + names[..n], names[n], k);
    NameAtIsReal(names[n], k);
    var other := names[..n] + [NameAt(names[n], k)];
    assert dir + other == (dir + names[..n]) + [NameAt(names[n], k)];
    WithinIff(dir, other);
    NamesOfPath(dir + other);
    NamesOfPath(dir);
  }

  /** With fewer than 10000 entries in its directory the file gets a name of its own. */
  lemma FreeNameExists(saveDir: Bytes, relPath: Bytes, baseName: Bytes, taken: set<Bytes>, r: Bytes)
    requires Rooted(saveDir)
    requires Chosen(PathOf(NamesOf(saveDir) + RelNames(relPath, baseName)), taken, r)
    requires |EntriesIn(Parent(NamesOf(saveDir) + RelNames(relPath, baseName)), taken)| < 10000
    ensures r !in taken
  {
    RelNamesAreReal(relPath, baseName);
    NamesAreReal(saveDir);
    ChosenIsFree(NamesOf(saveDir) + RelNames(relPath, baseName), taken, r);
  }

  lemma ChosenIsFree(names: seq<Bytes>, taken: set<Bytes>, r: Bytes)
    requires AllReal(names) && names != [] && Chosen(PathOf(names), taken, r)
    requires |EntriesIn(Parent(names), taken)| < TRIES
    ensures r !in taken
  {
    var k :| IsChosen(PathOf(names), taken, r, k);
    assert names == Parent(names) + [names[|names| - 1]];
    SomeSlotIsFree(Parent(names), names[|names| - 1], taken);
  }
}
