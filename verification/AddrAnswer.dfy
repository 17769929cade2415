/** What the selection answers, said of the addresses that were given and without the rules of the choice: every
    pair can be dialled, and no destination that some source can reach is missing. */
module AddrAnswer {
  import opened Bytes
  import opened Text
  import opened AddrText
  import opened Address
  import opened AddrSelect
  import opened StableSort
  import opened Parts

  predicate IsLinkLocal(ip: Ip) {
    IsLinkLocalUnicast(ip) || IsLinkLocalMulticast(ip)
  }

  /** A source serves destinations of its own family, and a link-local one only from a link-local or loopback address. */
  predicate Serves(sip: Ip, ip: Ip) {
    IsV6(sip) == IsV6(ip) && (IsLinkLocal(ip) ==> IsLinkLocal(sip) || IsLoopback(sip))
  }

  predicate Dials(lib: Library, dst: Bytes) {
    SplitHostPort(dst).Some? && lib.parse(SplitHostPort(dst).value.ip).Some?
  }

  function DstIp(lib: Library, dst: Bytes): Ip
    requires Dials(lib, dst)
  {
    lib.parse(SplitHostPort(dst).value.ip).value
  }

  /** A multicast address is no source, unless its scope is a link or an interface. */
  predicate CanSend(sip: Ip) {
    IsMulticast(sip) ==> IsLinkLocalMulticast(sip) || IsInterfaceLocalMulticast(sip)
  }

  predicate Sends(lib: Library, src: Bytes) {
    var ip := lib.parse(SplitZone(Trim(src)).0);
    Trim(src) != [] && ip.Some? && CanSend(ip.value)
  }

  function SrcIp(lib: Library, src: Bytes): Ip
    requires Sends(lib, src)
  {
    lib.parse(SplitZone(Trim(src)).0).value
  }

  predicate CanPair(lib: Library, dst: Bytes, src: Bytes) {
    Dials(lib, dst) && Sends(lib, src) && Serves(SrcIp(lib, src), DstIp(lib, dst))
  }

  /** The pair of the two: the destination's own zone, its own port if it has one, and the texts of both. */
  predicate PairIs(lib: Library, dst: Bytes, src: Bytes, port: nat, pair: AddrPair) {
    && CanPair(lib, dst, src)
    && var hp, ip := SplitHostPort(dst).value, DstIp(lib, dst);
       && pair.destination == JoinHostPort(lib.text(ip), !IsV6(ip), hp.zone, if hp.port > 0 then hp.port else port)
       && pair.source == lib.text(SrcIp(lib, src)) && pair.isV6 == IsV6(ip)
  }

  ghost predicate Dialable(lib: Library, dst: Bytes, sources: seq<Bytes>) {
    exists j :: 0 <= j < |sources| && CanPair(lib, dst, sources[j])
  }

  ghost function CountDialable(lib: Library, dsts: seq<Bytes>, sources: seq<Bytes>): nat {
    if dsts == [] then 0
    else CountDialable(lib, dsts[..|dsts| - 1], sources) + if Dialable(lib, dsts[|dsts| - 1], sources) then 1 else 0
  }

  ghost predicate PairOfTwo(lib: Library, dst: Bytes, sources: seq<Bytes>, port: nat, pair: AddrPair) {
    exists j :: 0 <= j < |sources| && PairIs(lib, dst, sources[j], port, pair)
  }

  // ---- what may be paired ----

  lemma UsableIff(sip: Ip)
    ensures Unusable(sip) <==> !CanSend(sip)
  {
    OnlyOneBlock(sip);
  }

  lemma ParsedIs(lib: Library, dst: Bytes, port: nat)
    ensures Parsed(lib, dst, port).Some? <==> Dials(lib, dst)
    ensures Dials(lib, dst) ==> Parsed(lib, dst, port).value.ip == DstIp(lib, dst)
  {
  }

  lemma SourceIs(lib: Library, src: Bytes)
    ensures ParseSource(lib, src).Some? <==> Sends(lib, src)
    ensures Sends(lib, src) ==> ParseSource(lib, src).value.ip == SrcIp(lib, src)
  {
    var ip := lib.parse(SplitZone(Trim(src)).0);
    if ip.Some? { UsableIff(ip.value); }
  }

  lemma EligibleIff(lib: Library, dst: Bytes, src: Bytes, port: nat)
    requires Dials(lib, dst) && Sends(lib, src)
    ensures Parsed(lib, dst, port).Some? && ParseSource(lib, src).Some?
    ensures Eligible(Parsed(lib, dst, port).value, ParseSource(lib, src).value) <==> CanPair(lib, dst, src)
  {
    ParsedIs(lib, dst, port);
    SourceIs(lib, src);
    OnlyOneBlock(DstIp(lib, dst));
    OnlyOneBlock(SrcIp(lib, src));
  }

  lemma PickedIff(d: Dst, srcs: seq<Source>)
    ensures Picked(d, srcs).Some? <==> exists s :: s in srcs && Eligible(d, s)
    ensures Picked(d, srcs).Some? ==> Picked(d, srcs).value in srcs && Eligible(d, Picked(d, srcs).value)
  {
    var keys := Keys(d, srcs);
    if FirstMin(keys) < 0 {
      forall s | s in srcs ensures !Eligible(d, s) {
        var j :| 0 <= j < |srcs| && srcs[j] == s;
        assert keys[j].None?;
      }
    }
  }

  /** The source of an entry is one that was given and can serve it; without one there was none. */
  lemma EntryIs(lib: Library, dst: Bytes, sources: seq<Bytes>, port: nat)
    requires Dials(lib, dst)
    ensures EntryOf(lib, dst, Sources(lib, sources), port).Some?
    ensures var e := EntryOf(lib, dst, Sources(lib, sources), port).value;
            && (Reachable(e) <==> Dialable(lib, dst, sources))
            && (Reachable(e) ==> PairOfTwo(lib, dst, sources, port, PairOf(lib, e)))
  {
    var d, srcs := Parsed(lib, dst, port).value, Sources(lib, sources);
    PickedIff(d, srcs);
    if Picked(d, srcs).Some? {
      var j := GivenAs(lib, sources, Picked(d, srcs).value);
      EligibleIff(lib, dst, sources[j], port);
      assert PairIs(lib, dst, sources[j], port, PairOf(lib, d.(src := Picked(d, srcs))));
    } else if Dialable(lib, dst, sources) {
      var j :| 0 <= j < |sources| && CanPair(lib, dst, sources[j]);
      EligibleIff(lib, dst, sources[j], port);
      GivenIsKept(lib, sources, j);
    }
  }

  lemma GivenAs(lib: Library, sources: seq<Bytes>, s: Source) returns (j: nat)
    requires s in Sources(lib, sources)
    ensures j < |sources| && Sends(lib, sources[j]) && ParseSource(lib, sources[j]) == Some(s)
  {
    var f := raw => ParseSource(lib, raw);
    var k :| 0 <= k < |Sources(lib, sources)| && Sources(lib, sources)[k] == s;
    CollectFrom(f, sources, k);
    j :| 0 <= j < |sources| && f(sources[j]) == Some(s);
    SourceIs(lib, sources[j]);
  }

  lemma GivenIsKept(lib: Library, sources: seq<Bytes>, j: nat)
    requires j < |sources| && Sends(lib, sources[j])
    ensures ParseSource(lib, sources[j]).Some? && ParseSource(lib, sources[j]).value in Sources(lib, sources)
  {
    SourceIs(lib, sources[j]);
    CollectHas(raw => ParseSource(lib, raw), sources, sources[j]);
  }

  // ---- through the sort ----

  lemma {:induction false} SortedHas(ds: seq<Dst>, d: Dst)
    ensures d in Sort(Rank, Routable(ds)) <==> d in ds && Reachable(d)
    ensures |Sort(Rank, Routable(ds))| == |Routable(ds)|
  {
    var r := Routable(ds);
    SortPermutes(Rank, r);
    RoutableIsFilter(ds);
    FilterHas(Reachable, ds, d);
    assert d in multiset(Sort(Rank, r)) <==> d in multiset(r);
    assert |multiset(Sort(Rank, r))| == |multiset(r)|;
  }

  lemma {:induction false} RoutableCounts(lib: Library, dsts: seq<Bytes>, sources: seq<Bytes>, port: nat)
    ensures |Routable(Entries(lib, dsts, Sources(lib, sources), port))| == CountDialable(lib, dsts, sources)
  {
    if dsts != [] {
      var n, last := |dsts| - 1, dsts[|dsts| - 1];
      var srcs := Sources(lib, sources);
      RoutableCounts(lib, dsts[..n], sources, port);
      RoutableMore(Entries(lib, dsts[..n], srcs, port), EntryOf(lib, last, srcs, port));
      if Dials(lib, last) { EntryIs(lib, last, sources, port); }
    }
  }

  lemma RoutableMore(ds: seq<Dst>, e: Option<Dst>)
    ensures |Routable(ds + if e.Some? then [e.value] else [])| == |Routable(ds)| + if e.Some? && Reachable(e.value) then 1 else 0
  {
    if e.Some? {
      assert (ds + [e.value])[..|ds|] == ds;
    } else {
      assert ds + [] == ds;
    }
  }

  lemma EntryFrom(lib: Library, dsts: seq<Bytes>, sources: seq<Bytes>, port: nat, e: Dst) returns (i: nat)
    requires e in Entries(lib, dsts, Sources(lib, sources), port)
    ensures i < |dsts| && Dials(lib, dsts[i]) && EntryOf(lib, dsts[i], Sources(lib, sources), port) == Some(e)
  {
    var f := raw => EntryOf(lib, raw, Sources(lib, sources), port);
    var es := Entries(lib, dsts, Sources(lib, sources), port);
    var k :| 0 <= k < |es| && es[k] == e;
    CollectFrom(f, dsts, k);
    i :| 0 <= i < |dsts| && f(dsts[i]) == Some(e);
  }

  /** Every pair of the answer can be dialled. */
  lemma PairIsSound(lib: Library, dsts: seq<Bytes>, sources: seq<Bytes>, port: nat, k: nat)
    requires k < |Selection(lib, dsts, sources, port)|
    ensures var d := Selection(lib, dsts, sources, port)[k];
            Reachable(d) && exists i :: 0 <= i < |dsts| && PairOfTwo(lib, dsts[i], sources, port, PairOf(lib, d))
  {
    var es, d := Entries(lib, dsts, Sources(lib, sources), port), Selection(lib, dsts, sources, port)[k];
    SortedHas(es, d);
    var i := EntryFrom(lib, dsts, sources, port, d);
    EntryIs(lib, dsts[i], sources, port);
  }

  /** No destination that can be dialled is missing. */
  lemma NoneIsMissing(lib: Library, dsts: seq<Bytes>, sources: seq<Bytes>, port: nat, i: nat)
    requires i < |dsts| && Dialable(lib, dsts[i], sources)
    ensures exists k :: 0 <= k < |Selection(lib, dsts, sources, port)| && Reachable(Selection(lib, dsts, sources, port)[k])
              && PairOfTwo(lib, dsts[i], sources, port, PairOf(lib, Selection(lib, dsts, sources, port)[k]))
  {
    var srcs := Sources(lib, sources);
    var es, s := Entries(lib, dsts, srcs, port), Selection(lib, dsts, sources, port);
    EntryIs(lib, dsts[i], sources, port);
    var e := EntryOf(lib, dsts[i], srcs, port).value;
    CollectHas(raw => EntryOf(lib, raw, srcs, port), dsts, dsts[i]);
    SortedHas(es, e);
    var k :| 0 <= k < |s| && s[k] == e;
  }

  // ---- the order of the answer, on addresses ----

  predicate InScope(ip: Ip, sip: Ip) {
    ScopeOf(ip) == ScopeOf(sip)
  }

  function Shared(ip: Ip, sip: Ip): nat {
    CommonPrefix(ip, sip, IsV6(ip))
  }

  /** A destination with its source goes before another with its own: a source of the same scope first, then more
      bits in common with the source, then the policy table, then IPv6. */
  predicate GoesBefore(ip: Ip, sip: Ip, ip': Ip, sip': Ip) {
    || (InScope(ip, sip) && !InScope(ip', sip'))
    || (InScope(ip, sip) == InScope(ip', sip')
        && (|| Shared(ip, sip) > Shared(ip', sip')
            || (Shared(ip, sip) == Shared(ip', sip')
                && (|| Precedence(ip) > Precedence(ip')
                    || (Precedence(ip) == Precedence(ip') && IsV6(ip) && !IsV6(ip'))))))
  }

  /** A source is preferred to another for a destination: one of its scope first, then fewer bits in common. */
  predicate Preferable(ip: Ip, sip: Ip, sip': Ip) {
    || (InScope(ip, sip) && !InScope(ip, sip'))
    || (InScope(ip, sip) == InScope(ip, sip') && Shared(ip, sip) < Shared(ip, sip'))
  }

  /** What an entry holds are the properties of its addresses. */
  ghost predicate Honest(d: Dst) {
    && d.isV6 == IsV6(d.ip) && d.scope == ScopeOf(d.ip) && d.prec == Precedence(d.ip)
    && (d.src.Some? ==> d.src.value.scope == ScopeOf(d.src.value.ip) && d.src.value.isV6 == IsV6(d.src.value.ip))
  }

  lemma OrderIsByRules(a: Dst, b: Dst)
    requires Honest(a) && Honest(b) && Reachable(a) && Reachable(b)
    ensures CompareDst(a, b) < 0 <==> GoesBefore(a.ip, a.src.value.ip, b.ip, b.src.value.ip)
  {
  }

  lemma SourcesAreHonest(lib: Library, sources: seq<Bytes>, s: Source)
    requires s in Sources(lib, sources)
    ensures s.scope == ScopeOf(s.ip) && s.isV6 == IsV6(s.ip)
  {
    var j := GivenAs(lib, sources, s);
  }

  lemma EntryIsHonest(lib: Library, dst: Bytes, sources: seq<Bytes>, port: nat)
    requires Dials(lib, dst) && EntryOf(lib, dst, Sources(lib, sources), port).Some?
    ensures Honest(EntryOf(lib, dst, Sources(lib, sources), port).value)
  {
    var d, srcs := Parsed(lib, dst, port).value, Sources(lib, sources);
    PickedIff(d, srcs);
    if Picked(d, srcs).Some? { SourcesAreHonest(lib, sources, Picked(d, srcs).value); }
  }

  lemma SelectedIsHonest(lib: Library, dsts: seq<Bytes>, sources: seq<Bytes>, port: nat, k: nat)
    requires k < |Selection(lib, dsts, sources, port)|
    ensures var d := Selection(lib, dsts, sources, port)[k]; Honest(d) && Reachable(d)
  {
    var es, d := Entries(lib, dsts, Sources(lib, sources), port), Selection(lib, dsts, sources, port)[k];
    SortedHas(es, d);
    var i := EntryFrom(lib, dsts, sources, port, d);
    EntryIsHonest(lib, dsts[i], sources, port);
  }

  /** No pair stands behind one that it goes before. */
  lemma AnswerIsOrdered(lib: Library, dsts: seq<Bytes>, sources: seq<Bytes>, port: nat, i: nat, j: nat)
    requires i < j < |Selection(lib, dsts, sources, port)|
    ensures var s := Selection(lib, dsts, sources, port);
            && Reachable(s[i]) && Reachable(s[j])
            && !GoesBefore(s[j].ip, s[j].src.value.ip, s[i].ip, s[i].src.value.ip)
  {
    var s := Selection(lib, dsts, sources, port);
    SelectedIsHonest(lib, dsts, sources, port, i);
    SelectedIsHonest(lib, dsts, sources, port, j);
    SortSorts(Rank, Routable(Entries(lib, dsts, Sources(lib, sources), port)));
    RankIsTheOrder(s[j], s[i]);
    OrderIsByRules(s[j], s[i]);
  }

  lemma PickedIsBest(d: Dst, srcs: seq<Source>, s: Source)
    requires Picked(d, srcs).Some? && s in srcs && Eligible(d, s)
    ensures SourceKey(d, Picked(d, srcs).value) <= SourceKey(d, s)
  {
    var j :| 0 <= j < |srcs| && srcs[j] == s;
    assert Keys(d, srcs)[j] == Some(SourceKey(d, s));
  }

  /** No source that was given and can serve the destination is preferable to the one that was picked. */
  lemma SourceIsBest(lib: Library, dsts: seq<Bytes>, sources: seq<Bytes>, port: nat, k: nat, i: nat, j: nat)
    requires k < |Selection(lib, dsts, sources, port)| && i < |dsts| && j < |sources|
    requires EntryOf(lib, dsts[i], Sources(lib, sources), port) == Some(Selection(lib, dsts, sources, port)[k])
    requires CanPair(lib, dsts[i], sources[j])
    ensures var d := Selection(lib, dsts, sources, port)[k];
            d.ip == DstIp(lib, dsts[i]) && Reachable(d) && !Preferable(d.ip, SrcIp(lib, sources[j]), d.src.value.ip)
  {
    var d, srcs := Parsed(lib, dsts[i], port).value, Sources(lib, sources);
    SelectedIsHonest(lib, dsts, sources, port, k);
    EligibleIff(lib, dsts[i], sources[j], port);
    GivenIsKept(lib, sources, j);
    var s := ParseSource(lib, sources[j]).value;
    SourcesAreHonest(lib, sources, s);
    SourceIs(lib, sources[j]);
    PickedIsBest(d, srcs, s);
    var best := Picked(d, srcs).value;
    KeyOrder(best.scope == d.scope, SharedBits(d, best), s.scope == d.scope, SharedBits(d, s));
  }

  /** The answer: as many pairs as there are destinations with a source that can serve them, every pair made of
      one given destination and one given source that can serve it, and each of those destinations in some pair. */
  ghost predicate Answers(lib: Library, dsts: seq<Bytes>, sources: seq<Bytes>, port: nat, out: seq<AddrPair>) {
    && |out| == CountDialable(lib, dsts, sources)
    && (forall k :: 0 <= k < |out| ==> exists i :: 0 <= i < |dsts| && PairOfTwo(lib, dsts[i], sources, port, out[k]))
    && (forall i :: 0 <= i < |dsts| && Dialable(lib, dsts[i], sources) ==>
         exists k :: 0 <= k < |out| && PairOfTwo(lib, dsts[i], sources, port, out[k]))
  }

  lemma SelectionAnswers(lib: Library, dsts: seq<Bytes>, sources: seq<Bytes>, port: nat, out: seq<AddrPair>)
    requires var s := Selection(lib, dsts, sources, port);
             |out| == |s| && forall k :: 0 <= k < |out| ==> Reachable(s[k]) && out[k] == PairOf(lib, s[k])
    ensures Answers(lib, dsts, sources, port, out)
  {
    var es := Entries(lib, dsts, Sources(lib, sources), port);
    RoutableCounts(lib, dsts, sources, port);
    SortPermutes(Rank, Routable(es));
    assert |multiset(Sort(Rank, Routable(es)))| == |multiset(Routable(es))|;
    forall k | 0 <= k < |out| ensures exists i :: 0 <= i < |dsts| && PairOfTwo(lib, dsts[i], sources, port, out[k]) {
      PairIsSound(lib, dsts, sources, port, k);
    }
    forall i | 0 <= i < |dsts| && Dialable(lib, dsts[i], sources)
      ensures exists k :: 0 <= k < |out| && PairOfTwo(lib, dsts[i], sources, port, out[k])
    {
      NoneIsMissing(lib, dsts, sources, port, i);
    }
  }

  /** The pairs are those of the stable best-first sort, and they answer the call. */
  method SelectAddresses(lib: Library, dsts: seq<Bytes>, sources: seq<Bytes>, port: nat) returns (out: seq<AddrPair>)
    ensures var s := Selection(lib, dsts, sources, port);
            && |out| == |s|
            && forall i :: 0 <= i < |out| ==> Reachable(s[i]) && out[i] == PairOf(lib, s[i])
    ensures Answers(lib, dsts, sources, port, out)
  {
    var parsed := ParseSources(lib, sources);
    var entries := BuildEntries(lib, dsts, parsed, port);
    SortedRoutable(entries);
    out := DropUnreachable(lib, Sort(Rank, entries));
    SelectionAnswers(lib, dsts, sources, port, out);
  }

  /** The address to dial: empty exactly when no source can serve any destination, which the caller reports as
      incompatible IP versions; else that of a pair which no other destination precedes. */
  method SelectFirst(lib: Library, dsts: seq<Bytes>, sources: seq<Bytes>, port: nat) returns (found: bool, best: Bytes)
    ensures found <==> AnyDialable(lib, dsts, sources)
    ensures !found ==> best == []
    ensures found ==> exists i, pair :: 0 <= i < |dsts| && PairOfTwo(lib, dsts[i], sources, port, pair) && best == pair.destination
    ensures found ==> var s := Selection(lib, dsts, sources, port);
      && s != [] && Reachable(s[0]) && best == PairOf(lib, s[0]).destination
      && forall d :: d in Entries(lib, dsts, Sources(lib, sources), port) && Reachable(d) ==> NotAfter(s[0], d)
  {
    var pairs := SelectAddresses(lib, dsts, sources, port);
    NoneToDial(lib, dsts, sources);
    if |pairs| == 0 {
      return false, [];
    }
    BestOfEntries(Entries(lib, dsts, Sources(lib, sources), port));
    return true, pairs[0].destination;
  }

  lemma BestOfEntries(ds: seq<Dst>)
    requires Sort(Rank, Routable(ds)) != []
    ensures forall d :: d in ds && Reachable(d) ==> NotAfter(Sort(Rank, Routable(ds))[0], d)
  {
    SortPermutes(Rank, Routable(ds));
    assert Routable(ds) != [];
    FirstIsBest(ds);
  }

  ghost predicate AnyDialable(lib: Library, dsts: seq<Bytes>, sources: seq<Bytes>) {
    exists i :: 0 <= i < |dsts| && Dialable(lib, dsts[i], sources)
  }

  lemma AnyOfMore(lib: Library, dsts: seq<Bytes>, last: Bytes, sources: seq<Bytes>)
    ensures AnyDialable(lib, dsts + [last], sources) <==> AnyDialable(lib, dsts, sources) || Dialable(lib, last, sources)
  {
    var all := dsts + [last];
    assert all[|dsts|] == last;
    if AnyDialable(lib, dsts, sources) {
      var i :| 0 <= i < |dsts| && Dialable(lib, dsts[i], sources);
      assert all[i] == dsts[i];
    }
  }

  lemma {:induction false} NoneToDial(lib: Library, dsts: seq<Bytes>, sources: seq<Bytes>)
    ensures CountDialable(lib, dsts, sources) > 0 <==> AnyDialable(lib, dsts, sources)
  {
    if dsts != [] {
      var n := |dsts| - 1;
      NoneToDial(lib, dsts[..n], sources);
      AnyOfMore(lib, dsts[..n], dsts[n], sources);
      assert dsts == dsts[..n] + [dsts[n]];
    }
  }
}
