/** Splitting text at a separator and joining it again. */
module Parts {
  import opened Bytes
  import opened Text

  /** The text up to the first separator. */
  function Before(s: Bytes, sep: byte): (r: Bytes)
    requires IndexByte(s, sep) >= 0
    ensures r == s[..IndexByte(s, sep)] && sep !in r
  {
    s[..IndexByte(s, sep)]
  }

  function Split(s: Bytes, sep: byte): (parts: seq<Bytes>)
    ensures parts != [] && forall i :: 0 <= i < |parts| ==> sep !in parts[i]
    decreases |s|
  {
    var i := IndexByte(s, sep);
    if i < 0 then [s] else [Before(s, sep)] + Split(s[i + 1..], sep)
  }

  function Join(parts: seq<Bytes>, sep: byte): Bytes {
    if parts == [] then []
    else if |parts| == 1 then parts[0]
    else parts[0] + [sep] + Join(parts[1..], sep)
  }

  predicate Free(parts: seq<Bytes>, sep: byte) {
    forall i :: 0 <= i < |parts| ==> sep !in parts[i]
  }

  lemma {:induction false} SplitOfJoin(parts: seq<Bytes>, sep: byte)
    requires parts != [] && Free(parts, sep)
    ensures Split(Join(parts, sep), sep) == parts
  {
    if |parts| > 1 {
      SplitOfJoin(parts[1..], sep);
      IndexIsFirst(parts[0], sep, Join(parts[1..], sep));
    }
  }

  lemma SplitFirst(s: Bytes, sep: byte)
    requires IndexByte(s, sep) >= 0
    ensures Split(s, sep) == [Before(s, sep)] + Split(s[IndexByte(s, sep) + 1..], sep)
    ensures s == Before(s, sep) + [sep] + s[IndexByte(s, sep) + 1..]
  {
  }

  lemma JoinFirst(p: Bytes, rest: seq<Bytes>, sep: byte)
    requires rest != []
    ensures Join([p] + rest, sep) == p + [sep] + Join(rest, sep)
  {
    assert ([p] + rest)[1..] == rest;
  }

  lemma {:induction false} JoinOfSplit(s: Bytes, sep: byte)
    ensures Join(Split(s, sep), sep) == s
    decreases |s|
  {
    var i := IndexByte(s, sep);
    if i >= 0 {
      SplitFirst(s, sep);
      JoinOfSplit(s[i + 1..], sep);
      JoinFirst(Before(s, sep), Split(s[i + 1..], sep), sep);
    }
  }

  lemma {:induction false} JoinAppend(a: seq<Bytes>, b: seq<Bytes>, sep: byte)
    requires a != [] && b != []
    ensures Join(a + b, sep) == Join(a, sep) + [sep] + Join(b, sep)
  {
    assert (a + b)[0] == a[0] && (a + b)[1..] == a[1..] + b;
    if |a| == 1 {
      assert a[1..] + b == b;
    } else {
      JoinAppend(a[1..], b, sep);
    }
  }

  lemma JoinSnoc(a: seq<Bytes>, p: Bytes, sep: byte)
    requires a != []
    ensures Join(a + [p], sep) == Join(a, sep) + [sep] + p
  {
    JoinAppend(a, [p], sep);
  }

  lemma SplitAppend(x: Bytes, y: Bytes, sep: byte)
    ensures Split(x + [sep] + y, sep) == Split(x, sep) + Split(y, sep)
  {
    var parts := Split(x, sep) + Split(y, sep);
    JoinOfSplit(x, sep);
    JoinOfSplit(y, sep);
    JoinAppend(Split(x, sep), Split(y, sep), sep);
    SplitOfJoin(parts, sep);
  }

  /** Whatever the parts hold, splitting their join finds the pieces of each of them. */
  lemma {:induction false} PiecesOfJoin(parts: seq<Bytes>, sep: byte, i: nat, piece: Bytes)
    requires i < |parts| && piece in Split(parts[i], sep)
    ensures piece in Split(Join(parts, sep), sep)
  {
    if |parts| > 1 {
      SplitAppend(parts[0], Join(parts[1..], sep), sep);
      if i > 0 { PiecesOfJoin(parts[1..], sep, i - 1, piece); }
    }
  }

  /** The results that f gives, in order. */
  function Collect<A, B>(f: A -> Option<B>, s: seq<A>): seq<B> {
    if s == [] then []
    else
      var last := f(s[|s| - 1]);
      Collect(f, s[..|s| - 1]) + if last.Some? then [last.value] else []
  }

  lemma CollectMore<A, B>(f: A -> Option<B>, s: seq<A>, i: nat)
    requires i < |s|
    ensures Collect(f, s[..i + 1]) == Collect(f, s[..i]) + if f(s[i]).Some? then [f(s[i]).value] else []
  {
    assert s[..i + 1][..i] == s[..i];
  }

  lemma {:induction false} CollectAll<A>(f: A -> Option<A>, s: seq<A>)
    requires forall i :: 0 <= i < |s| ==> f(s[i]) == Some(s[i])
    ensures Collect(f, s) == s
  {
    if s != [] {
      CollectAll(f, s[..|s| - 1]);
      assert s == s[..|s| - 1] + [s[|s| - 1]];
    }
  }

  /** Every result comes from an argument. */
  lemma {:induction false} CollectFrom<A, B>(f: A -> Option<B>, s: seq<A>, k: nat)
    requires k < |Collect(f, s)|
    ensures exists i :: 0 <= i < |s| && f(s[i]) == Some(Collect(f, s)[k])
  {
    var n := |s| - 1;
    if k < |Collect(f, s[..n])| {
      CollectFrom(f, s[..n], k);
      var i :| 0 <= i < n && f(s[..n][i]) == Some(Collect(f, s[..n])[k]);
      assert f(s[i]) == Some(Collect(f, s)[k]);
    } else {
      assert f(s[n]) == Some(Collect(f, s)[k]);
    }
  }

  /** Every argument with a result contributes it. */
  lemma {:induction false} CollectHas<A, B>(f: A -> Option<B>, s: seq<A>, x: A)
    requires x in s && f(x).Some?
    ensures exists k :: 0 <= k < |Collect(f, s)| && Collect(f, s)[k] == f(x).value
  {
    var n := |s| - 1;
    if s[n] == x {
      assert Collect(f, s)[|Collect(f, s)| - 1] == f(x).value;
    } else {
      assert s == s[..n] + [s[n]];
      CollectHas(f, s[..n], x);
      var k :| 0 <= k < |Collect(f, s[..n])| && Collect(f, s[..n])[k] == f(x).value;
      assert Collect(f, s)[k] == f(x).value;
    }
  }

  lemma CollectOne<A, B>(f: A -> Option<B>, x: A)
    ensures Collect(f, [x]) == if f(x).Some? then [f(x).value] else []
  {
    assert [x][..0] == [];
  }

  // ---- sizes ----

  function Size(parts: seq<Bytes>): nat {
    if parts == [] then 0 else Size(parts[..|parts| - 1]) + |parts[|parts| - 1]| + 1
  }

  lemma SizeMore(parts: seq<Bytes>, p: Bytes)
    ensures Size(parts + [p]) == Size(parts) + |p| + 1
  {
    assert (parts + [p])[..|parts|] == parts;
  }

  lemma {:induction false} JoinSize(parts: seq<Bytes>, sep: byte)
    requires parts != []
    ensures |Join(parts, sep)| + 1 == Size(parts)
  {
    var n := |parts| - 1;
    if n > 0 {
      JoinSize(parts[..n], sep);
      assert parts == parts[..n] + [parts[n]];
      JoinSnoc(parts[..n], parts[n], sep);
    }
  }

  /** Dropping and cutting parts makes the text shorter. */
  lemma {:induction false} CollectSize(f: Bytes -> Option<Bytes>, parts: seq<Bytes>)
    requires forall i :: 0 <= i < |parts| && f(parts[i]).Some? ==> |f(parts[i]).value| <= |parts[i]|
    ensures Size(Collect(f, parts)) <= Size(parts)
    ensures Size(Collect(f, parts)) == Size(parts) ==>
              forall i :: 0 <= i < |parts| ==> f(parts[i]).Some? && |f(parts[i]).value| == |parts[i]|
  {
    if parts != [] {
      var n := |parts| - 1;
      CollectSize(f, parts[..n]);
      if f(parts[n]).Some? {
        SizeMore(Collect(f, parts[..n]), f(parts[n]).value);
      } else {
        assert Collect(f, parts) == Collect(f, parts[..n]);
      }
      if Size(Collect(f, parts)) == Size(parts) {
        forall i | 0 <= i < |parts| ensures f(parts[i]).Some? && |f(parts[i]).value| == |parts[i]| {
          assert i < n ==> parts[..n][i] == parts[i];
        }
      }
    }
  }
}
