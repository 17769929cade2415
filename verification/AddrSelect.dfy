/** Choosing among a peer's addresses: a source for each destination, then the order of dialling. */
module AddrSelect {
  import opened Bytes
  import opened Text
  import opened AddrText
  import opened Address
  import opened StableSort
  import opened Parts

  datatype Source = Source(ip: Ip, scope: Scope, isV6: bool)

  type Prec = p: int | 0 <= p <= 50

  datatype Dst = Dst(ip: Ip, zone: Bytes, isV6: bool, scope: Scope, prec: Prec, src: Option<Source>, port: nat)

  datatype AddrPair = AddrPair(destination: Bytes, source: Bytes, isV6: bool)

  /** Parsing and printing of addresses belong to the standard library. */
  datatype Library = Library(parse: Bytes -> Option<Ip>, text: Ip -> Bytes)

  // ---- choosing a source ----

  predicate Eligible(d: Dst, s: Source) {
    s.isV6 == d.isV6 && (d.scope == LinkLocal ==> s.scope == LinkLocal || s.scope == Loopback)
  }

  function SharedBits(d: Dst, s: Source): (n: nat)
    ensures n <= 128
  {
    CommonPrefix(d.ip, s.ip, d.isV6)
  }

  /** Negative if the candidate is to replace the best so far. */
  function CompareSource(d: Dst, best: Source, candidate: Source): int {
    if candidate.scope == d.scope && best.scope != d.scope then -1
    else if candidate.scope != d.scope && best.scope == d.scope then 1
    else if d.scope == Global && candidate.scope == Global && best.scope != Global then -1
    else if d.scope == Global && candidate.scope != Global && best.scope == Global then 1
    else SharedBits(d, candidate) - SharedBits(d, best)
  }

  /** What the comparison minimises: scope first, then the number of shared bits. */
  function KeyBy(inScope: bool, bits: nat): nat {
    (if inScope then 0 else 129) + bits
  }

  function SourceKey(d: Dst, s: Source): nat {
    KeyBy(s.scope == d.scope, SharedBits(d, s))
  }

  /** The rule about global scope never decides, for the scope rule has decided before. */
  lemma CompareSourceIsByKey(d: Dst, best: Source, candidate: Source)
    ensures CompareSource(d, best, candidate) < 0 <==> SourceKey(d, candidate) < SourceKey(d, best)
    ensures CompareSource(d, best, candidate) == 0 <==> SourceKey(d, candidate) == SourceKey(d, best)
  {
  }

  function Keys(d: Dst, sources: seq<Source>): (keys: seq<Option<nat>>)
    ensures |keys| == |sources|
    ensures forall i :: 0 <= i < |keys| ==> keys[i] == if Eligible(d, sources[i]) then Some(SourceKey(d, sources[i])) else None
  {
    seq(|sources|, i requires 0 <= i < |sources| => if Eligible(d, sources[i]) then Some(SourceKey(d, sources[i])) else None)
  }

  /** The first place of the smallest key. */
  predicate IsFirstMin(keys: seq<Option<nat>>, k: nat) {
    && k < |keys| && keys[k].Some?
    && (forall j :: 0 <= j < |keys| && keys[j].Some? ==> keys[k].value <= keys[j].value)
    && (forall j :: 0 <= j < k && keys[j].Some? ==> keys[k].value < keys[j].value)
  }

  function FirstMin(keys: seq<Option<nat>>): (k: int)
    ensures -1 <= k < |keys|
    ensures k < 0 <==> forall j :: 0 <= j < |keys| ==> keys[j].None?
    ensures k >= 0 ==> IsFirstMin(keys, k)
  {
    if keys == [] then -1
    else
      var n := |keys| - 1;
      var k := FirstMin(keys[..n]);
      if keys[n].None? then k
      else if k < 0 || keys[n].value < keys[k].value then n
      else k
  }

  /** The eligible source of least key, the first of them if there are several. */
  function Picked(d: Dst, sources: seq<Source>): Option<Source> {
    var k := FirstMin(Keys(d, sources));
    if k < 0 then None else Some(sources[k])
  }

  /** The better of the best so far and one more source. */
  function Preferred(d: Dst, best: Option<Source>, s: Source): Option<Source> {
    if !Eligible(d, s) then best
    else if best.None? || CompareSource(d, best.value, s) < 0 then Some(s)
    else best
  }

  lemma PickedMore(d: Dst, sources: seq<Source>, s: Source)
    ensures Picked(d, sources + [s]) == Preferred(d, Picked(d, sources), s)
  {
    assert (sources + [s])[..|sources|] == sources;
    assert Keys(d, sources + [s])[..|sources|] == Keys(d, sources);
    var best := Picked(d, sources);
    if best.Some? { CompareSourceIsByKey(d, best.value, s); }
  }

  lemma PickedNext(d: Dst, sources: seq<Source>, i: nat)
    requires i < |sources|
    ensures Picked(d, sources[..i + 1]) == Preferred(d, Picked(d, sources[..i]), sources[i])
  {
    assert sources[..i + 1] == sources[..i] + [sources[i]];
    PickedMore(d, sources[..i], sources[i]);
  }

  method PickSource(d: Dst, sources: seq<Source>) returns (best: Option<Source>)
    ensures best == Picked(d, sources)
  {
    best := None;
    var i := 0;
    while i < |sources|
      invariant 0 <= i <= |sources| && best == Picked(d, sources[..i])
    {
      var s := sources[i];
      PickedNext(d, sources, i);
      if Eligible(d, s) {
        if best.None? {
          best := Some(s);
        } else if CompareSource(d, best.value, s) < 0 {
          best := Some(s);
        }
      }
      i := i + 1;
    }
    assert sources[..i] == sources;
  }

  // ---- the rule that was meant ----

  /** Among the sources the scope rule leaves. */
  ghost predicate InTheRunning(d: Dst, sources: seq<Source>, i: nat) {
    && i < |sources| && Eligible(d, sources[i])
    && (sources[i].scope == d.scope || NoneInScope(d, sources))
  }

  ghost predicate NoneInScope(d: Dst, sources: seq<Source>) {
    forall j :: 0 <= j < |sources| && Eligible(d, sources[j]) ==> sources[j].scope != d.scope
  }

  function BitsAt(d: Dst, sources: seq<Source>, i: nat): (n: nat)
    ensures n <= 128
  {
    if i < |sources| then SharedBits(d, sources[i]) else 0
  }

  /** Section 5 of RFC 6724, rule 8, asks for the longest matching prefix. */
  ghost predicate IsLongestMatch(d: Dst, sources: seq<Source>, i: nat) {
    InTheRunning(d, sources, i) && forall j :: InTheRunning(d, sources, j) ==> BitsAt(d, sources, j) <= BitsAt(d, sources, i)
  }

  lemma KeyOrder(p: bool, m: nat, q: bool, n: nat)
    requires m <= 128 && n <= 128 && KeyBy(p, m) <= KeyBy(q, n)
    ensures q ==> p
    ensures p == q ==> m <= n
  {
  }

  lemma PickedIsShortest(d: Dst, sources: seq<Source>, k: nat)
    requires IsFirstMin(Keys(d, sources), k)
    ensures InTheRunning(d, sources, k)
    ensures forall t :: InTheRunning(d, sources, t) ==> BitsAt(d, sources, k) <= BitsAt(d, sources, t)
  {
    var keys := Keys(d, sources);
    forall j: nat | j < |sources| && Eligible(d, sources[j])
      ensures sources[j].scope == d.scope ==> sources[k].scope == d.scope
      ensures (sources[j].scope == d.scope) == (sources[k].scope == d.scope) ==> BitsAt(d, sources, k) <= BitsAt(d, sources, j)
    {
      assert keys[k].value <= keys[j].value;
      KeyOrder(sources[k].scope == d.scope, BitsAt(d, sources, k), sources[j].scope == d.scope, BitsAt(d, sources, j));
    }
  }

  /** The comparison keeps the shorter prefix, so the rule of the RFC is met exactly when it has
      nothing to decide: all sources in the running share equally many bits with the destination. */
  lemma LongestMatchIff(d: Dst, sources: seq<Source>, k: nat)
    requires FirstMin(Keys(d, sources)) == k
    ensures IsLongestMatch(d, sources, k) <==>
            forall i, j :: InTheRunning(d, sources, i) && InTheRunning(d, sources, j) ==> BitsAt(d, sources, i) == BitsAt(d, sources, j)
  {
    PickedIsShortest(d, sources, k);
  }

  /** 10.0.0.9 is dialled from 192.168.0.1, although 10.0.0.1 is on its network. */
  lemma ShorterPrefixWins()
    ensures var d := Dst([10, 0, 0, 9], [], false, Global, 20, None, 1);
            var near, far := Source([10, 0, 0, 1], Global, false), Source([192, 168, 0, 1], Global, false);
            Picked(d, [near, far]) == Some(far) && !IsLongestMatch(d, [near, far], 1)
  {
    var d := Dst([10, 0, 0, 9], [], false, Global, 20, None, 1);
    var near, far := Source([10, 0, 0, 1], Global, false), Source([192, 168, 0, 1], Global, false);
    var both := [near, far];
    SharesFirstByteIff(d, near);
    SharesFirstByteIff(d, far);
    FirstMinOfTwo(Keys(d, both));
    assert BitsAt(d, both, 1) < 8 <= BitsAt(d, both, 0);
    assert InTheRunning(d, both, 0);
  }

  lemma SharesFirstByteIff(d: Dst, s: Source)
    requires |d.ip| == |s.ip| == 4 && !d.isV6
    ensures SharedBits(d, s) >= 8 <==> d.ip[0] == s.ip[0]
  {
    LeadingAtLeastIff(d.ip, s.ip, 8);
    AgreeOnBytesIff(d.ip, s.ip, 1);
    assert d.ip[..1] == [d.ip[0]] && s.ip[..1] == [s.ip[0]];
  }

  lemma FirstMinOfTwo(keys: seq<Option<nat>>)
    requires |keys| == 2 && keys[0].Some? && keys[1].Some? && keys[1].value < keys[0].value
    ensures FirstMin(keys) == 1
  {
  }

  // ---- ordering destinations ----

  predicate Reachable(d: Dst) {
    d.src.Some?
  }

  predicate Scoped(d: Dst) {
    d.src.Some? && d.src.value.scope == d.scope
  }

  function SourceBits(d: Dst): (n: nat)
    ensures n <= 128
  {
    if d.src.Some? then CommonPrefix(d.ip, d.src.value.ip, d.isV6) else 0
  }

  /** Negative if a is to be dialled before b. */
  function CompareDst(a: Dst, b: Dst): int {
    if Reachable(a) != Reachable(b) then (if Reachable(a) then -1 else 1)
    else if Scoped(a) != Scoped(b) then (if Scoped(a) then -1 else 1)
    else if a.src.Some? && b.src.Some? && SourceBits(a) != SourceBits(b) then SourceBits(b) as int - SourceBits(a)
    else if a.prec != b.prec then b.prec - a.prec
    else if a.isV6 != b.isV6 then (if a.isV6 then -1 else 1)
    else 0
  }

  /** The key the order goes by, smaller first. */
  function DstKey(d: Dst): (k: seq<int>)
    ensures |k| == 5
  {
    [ if Reachable(d) then 0 else 1, if Scoped(d) then 0 else 1, 0 - SourceBits(d), 0 - d.prec, if d.isV6 then 0 else 1 ]
  }

  predicate LexLess(a: seq<int>, b: seq<int>)
    requires |a| == |b|
  {
    a != [] && (a[0] < b[0] || (a[0] == b[0] && LexLess(a[1..], b[1..])))
  }

  lemma {:induction false} LexIsAStrictOrder(a: seq<int>, b: seq<int>, c: seq<int>)
    requires |a| == |b| == |c|
    ensures !LexLess(a, a)
    ensures LexLess(a, b) && LexLess(b, c) ==> LexLess(a, c)
    ensures LexLess(a, b) || LexLess(b, a) || a == b
  {
    if a != [] {
      LexIsAStrictOrder(a[1..], b[1..], c[1..]);
      assert a == [a[0]] + a[1..] && b == [b[0]] + b[1..];
    }
  }

  lemma LexOfFive(a: seq<int>, b: seq<int>)
    requires |a| == |b| == 5
    ensures LexLess(a, b) <==>
            || a[0] < b[0]
            || (a[0] == b[0] && (a[1] < b[1]
            || (a[1] == b[1] && (a[2] < b[2]
            || (a[2] == b[2] && (a[3] < b[3] || (a[3] == b[3] && a[4] < b[4])))))))
  {
    assert LexLess(a, b) == (a[0] < b[0] || (a[0] == b[0] && LexLess(a[1..], b[1..])));
    assert LexLess(a[1..], b[1..]) == (a[1] < b[1] || (a[1] == b[1] && LexLess(a[1..][1..], b[1..][1..])));
    assert a[1..][1..] == a[2..] && b[1..][1..] == b[2..];
    assert LexLess(a[2..], b[2..]) == (a[2] < b[2] || (a[2] == b[2] && LexLess(a[2..][1..], b[2..][1..])));
    assert a[2..][1..] == a[3..] && b[2..][1..] == b[3..];
    assert LexLess(a[3..], b[3..]) == (a[3] < b[3] || (a[3] == b[3] && LexLess(a[3..][1..], b[3..][1..])));
    assert a[3..][1..] == a[4..] && b[3..][1..] == b[4..];
    assert !LexLess(a[4..][1..], b[4..][1..]);
    assert LexLess(a[4..], b[4..]) == (a[4] < b[4]);
  }

  lemma CompareDstIsByKey(a: Dst, b: Dst)
    ensures CompareDst(a, b) < 0 <==> LexLess(DstKey(a), DstKey(b))
    ensures CompareDst(a, b) == 0 <==> DstKey(a) == DstKey(b)
  {
    LexOfFive(DstKey(a), DstKey(b));
    assert DstKey(a) == DstKey(b) <==> forall i :: 0 <= i < 5 ==> DstKey(a)[i] == DstKey(b)[i];
  }

  predicate NotAfter(a: Dst, b: Dst) {
    CompareDst(a, b) <= 0
  }

  /** The comparison is a total preorder: any two compare, and the order is transitive. */
  lemma CompareDstIsATotalPreorder(a: Dst, b: Dst, c: Dst)
    ensures NotAfter(a, a) && (NotAfter(a, b) || NotAfter(b, a))
    ensures NotAfter(a, b) && NotAfter(b, c) ==> NotAfter(a, c)
    ensures CompareDst(a, b) < 0 <==> CompareDst(b, a) > 0
  {
    CompareDstIsByKey(a, a);
    CompareDstIsByKey(a, b);
    CompareDstIsByKey(b, a);
    CompareDstIsByKey(b, c);
    CompareDstIsByKey(a, c);
    LexIsAStrictOrder(DstKey(a), DstKey(b), DstKey(c));
    LexIsAStrictOrder(DstKey(b), DstKey(a), DstKey(b));
  }

  /** The same order as one number. */
  function Rank(d: Dst): int {
    var reach, scoped, v6 := if Reachable(d) then 0 else 1, if Scoped(d) then 0 else 1, if d.isV6 then 0 else 1;
    (((reach * 2 + scoped) * 129 + (128 - SourceBits(d))) * 51 + (50 - d.prec)) * 2 + v6
  }

  lemma RankIsTheOrder(a: Dst, b: Dst)
    ensures CompareDst(a, b) < 0 <==> Rank(a) < Rank(b)
    ensures CompareDst(a, b) == 0 <==> Rank(a) == Rank(b)
  {
  }

  // ---- the whole selection ----

  function ParseSource(lib: Library, raw: Bytes): Option<Source> {
    var s := Trim(raw);
    if s == [] then None
    else
      var ip := lib.parse(SplitZone(s).0);
      if ip.None? || Unusable(ip.value) then None
      else Some(Source(ip.value, ScopeOf(ip.value), IsV6(ip.value)))
  }

  predicate Unusable(ip: Ip) {
    IsMulticast(ip) && !IsLinkLocalUnicast(ip) && !IsLinkLocalMulticast(ip) && !IsLoopback(ip) && !IsInterfaceLocalMulticast(ip)
  }

  function Sources(lib: Library, raws: seq<Bytes>): seq<Source> {
    Collect(raw => ParseSource(lib, raw), raws)
  }

  method ParseSources(lib: Library, raws: seq<Bytes>) returns (out: seq<Source>)
    ensures out == Sources(lib, raws)
  {
    ghost var f := raw => ParseSource(lib, raw);
    out := [];
    var i := 0;
    while i < |raws|
      invariant 0 <= i <= |raws| && out == Collect(f, raws[..i])
    {
      CollectMore(f, raws, i);
      var s := ParseSource(lib, raws[i]);
      if s.Some? { out := out + [s.value]; }
      i := i + 1;
    }
    assert raws[..i] == raws;
  }

  /** The entry for an address, before its source is known. */
  function Unpaired(ip: Ip, zone: Bytes, port: nat): Dst {
    Dst(ip, zone, IsV6(ip), ScopeOf(ip), Precedence(ip), None, port)
  }

  function Parsed(lib: Library, raw: Bytes, port: nat): Option<Dst> {
    var hp := SplitHostPort(raw);
    if hp.None? then None
    else
      var ip := lib.parse(hp.value.ip);
      if ip.None? then None
      else Some(Unpaired(ip.value, hp.value.zone, if hp.value.port == 0 then port else hp.value.port))
  }

  function EntryOf(lib: Library, raw: Bytes, sources: seq<Source>, port: nat): Option<Dst> {
    var d := Parsed(lib, raw, port);
    if d.None? then None else Some(d.value.(src := Picked(d.value, sources)))
  }

  function Entries(lib: Library, dsts: seq<Bytes>, sources: seq<Source>, port: nat): seq<Dst> {
    Collect(raw => EntryOf(lib, raw, sources, port), dsts)
  }

  method BuildEntry(lib: Library, raw: Bytes, sources: seq<Source>, port: nat) returns (e: Option<Dst>)
    ensures e == EntryOf(lib, raw, sources, port)
  {
    var d := Parsed(lib, raw, port);
    if d.None? { return None; }
    var src := PickSource(d.value, sources);
    return Some(d.value.(src := src));
  }

  method BuildEntries(lib: Library, dsts: seq<Bytes>, sources: seq<Source>, port: nat) returns (entries: seq<Dst>)
    ensures entries == Entries(lib, dsts, sources, port)
  {
    ghost var f := raw => EntryOf(lib, raw, sources, port);
    entries := [];
    var i := 0;
    while i < |dsts|
      invariant 0 <= i <= |dsts| && entries == Collect(f, dsts[..i])
    {
      CollectMore(f, dsts, i);
      var e := BuildEntry(lib, dsts[i], sources, port);
      if e.Some? { entries := entries + [e.value]; }
      i := i + 1;
    }
    assert dsts[..i] == dsts;
  }

  function PairOf(lib: Library, d: Dst): AddrPair
    requires Reachable(d)
  {
    AddrPair(JoinHostPort(lib.text(d.ip), !IsV6(d.ip), d.zone, d.port), lib.text(d.src.value.ip), d.isV6)
  }

  function Pairs(lib: Library, ds: seq<Dst>): (ps: seq<AddrPair>)
    requires forall i :: 0 <= i < |ds| ==> Reachable(ds[i])
    ensures |ps| == |ds|
    ensures forall i :: 0 <= i < |ps| ==> ps[i] == PairOf(lib, ds[i])
  {
    seq(|ds|, i requires 0 <= i < |ds| => PairOf(lib, ds[i]))
  }

  /** The destinations that can be dialled, in the order they came. */
  function Routable(ds: seq<Dst>): (r: seq<Dst>)
    ensures forall i :: 0 <= i < |r| ==> Reachable(r[i])
  {
    if ds == [] then [] else Routable(ds[..|ds| - 1]) + if Reachable(ds[|ds| - 1]) then [ds[|ds| - 1]] else []
  }

  lemma {:induction false} RoutableIsFilter(ds: seq<Dst>)
    ensures Routable(ds) == Filter(Reachable, ds)
  {
    if ds != [] { RoutableIsFilter(ds[..|ds| - 1]); }
  }

  lemma {:induction false} SortedRoutable(ds: seq<Dst>)
    ensures Routable(Sort(Rank, ds)) == Sort(Rank, Routable(ds))
  {
    RoutableIsFilter(ds);
    RoutableIsFilter(Sort(Rank, ds));
    FilterSort(Rank, Reachable, ds);
  }

  /** The answer: exactly the destinations with an eligible source, stably sorted best first. */
  function Selection(lib: Library, dsts: seq<Bytes>, sources: seq<Bytes>, port: nat): seq<Dst> {
    Sort(Rank, Routable(Entries(lib, dsts, Sources(lib, sources), port)))
  }

  lemma PairsMore(lib: Library, ds: seq<Dst>, i: nat)
    requires i < |ds|
    ensures Pairs(lib, Routable(ds[..i + 1])) ==
            Pairs(lib, Routable(ds[..i])) + if Reachable(ds[i]) then [PairOf(lib, ds[i])] else []
  {
    assert ds[..i + 1][..i] == ds[..i];
  }

  /** The last loop drops what has no source. */
  method DropUnreachable(lib: Library, sorted: seq<Dst>) returns (out: seq<AddrPair>)
    ensures out == Pairs(lib, Routable(sorted))
  {
    out := [];
    var i := 0;
    while i < |sorted|
      invariant 0 <= i <= |sorted| && out == Pairs(lib, Routable(sorted[..i]))
    {
      PairsMore(lib, sorted, i);
      if sorted[i].src.Some? {
        out := out + [PairOf(lib, sorted[i])];
      }
      i := i + 1;
    }
    assert sorted[..i] == sorted;
  }

  /** The first of the answer is dialled first: no routable destination precedes it, and among its
      equals it was advertised first. */
  lemma FirstIsBest(ds: seq<Dst>)
    requires Routable(ds) != []
    ensures var s := Sort(Rank, Routable(ds));
            s != [] && (forall d :: d in ds && Reachable(d) ==> NotAfter(s[0], d))
            && var equals := Filter(Alike(Rank, Rank(s[0])), Routable(ds));
               equals != [] && s[0] == equals[0]
  {
    var r := Routable(ds);
    var s := Sort(Rank, r);
    SortPermutes(Rank, r);
    SortSorts(Rank, r);
    SortIsStable(Rank, r, Rank(s[0]));
    FirstOfClass(s);
    forall d | d in ds && Reachable(d) ensures NotAfter(s[0], d) {
      RoutableIsFilter(ds);
      FilterHas(Reachable, ds, d);
      assert d in multiset(r);
      assert d in multiset(s);
      var i :| 0 <= i < |s| && s[i] == d;
      RankIsTheOrder(s[0], d);
    }
  }

  lemma {:induction false} FirstOfClass(s: seq<Dst>)
    requires s != []
    ensures Filter(Alike(Rank, Rank(s[0])), s) != [] && Filter(Alike(Rank, Rank(s[0])), s)[0] == s[0]
  {
    if |s| > 1 {
      FirstOfClass(s[..|s| - 1]);
    }
  }
}
