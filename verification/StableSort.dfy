/** What a stable sort by a key returns: a library routine, known by its contract. */
module StableSort {

  predicate Sorted<T(!new)>(key: T -> int, s: seq<T>) {
    forall i, j :: 0 <= i < j < |s| ==> key(s[i]) <= key(s[j])
  }

  function Filter<T>(p: T -> bool, s: seq<T>): seq<T> {
    if s == [] then [] else Filter(p, s[..|s| - 1]) + if p(s[|s| - 1]) then [s[|s| - 1]] else []
  }

  /** Puts x behind everything whose key is not larger. */
  function Insert<T>(key: T -> int, s: seq<T>, x: T): seq<T> {
    if s == [] || key(s[|s| - 1]) <= key(x) then s + [x]
    else Insert(key, s[..|s| - 1], x) + [s[|s| - 1]]
  }

  function Sort<T>(key: T -> int, s: seq<T>): seq<T> {
    if s == [] then [] else Insert(key, Sort(key, s[..|s| - 1]), s[|s| - 1])
  }

  function Alike<T>(key: T -> int, k: int): T -> bool {
    x => key(x) == k
  }

  lemma FilterMore<T>(p: T -> bool, s: seq<T>, x: T)
    ensures p(x) ==> Filter(p, s + [x]) == Filter(p, s) + [x]
    ensures !p(x) ==> Filter(p, s + [x]) == Filter(p, s)
  {
    assert (s + [x])[..|s|] == s;
  }

  lemma SortMore<T>(key: T -> int, s: seq<T>, x: T)
    ensures Sort(key, s + [x]) == Insert(key, Sort(key, s), x)
  {
    assert (s + [x])[..|s|] == s;
  }

  lemma InsertMore<T>(key: T -> int, s: seq<T>, y: T, x: T)
    ensures Insert(key, s + [y], x) == if key(y) <= key(x) then s + [y] + [x] else Insert(key, s, x) + [y]
  {
    assert (s + [y])[..|s|] == s;
  }

  lemma {:induction false} FilterHas<T>(p: T -> bool, s: seq<T>, x: T)
    ensures x in Filter(p, s) <==> x in s && p(x)
  {
    if s != [] {
      var n := |s| - 1;
      FilterHas(p, s[..n], x);
      assert s == s[..n] + [s[n]];
    }
  }

  lemma {:induction false} InsertHas<T>(key: T -> int, s: seq<T>, x: T)
    ensures multiset(Insert(key, s, x)) == multiset(s) + multiset{x}
  {
    if s != [] && key(x) < key(s[|s| - 1]) {
      InsertHas(key, s[..|s| - 1], x);
      assert s == s[..|s| - 1] + [s[|s| - 1]];
    }
  }

  lemma {:induction false} SortPermutes<T>(key: T -> int, s: seq<T>)
    ensures multiset(Sort(key, s)) == multiset(s)
  {
    if s != [] {
      SortPermutes(key, s[..|s| - 1]);
      InsertHas(key, Sort(key, s[..|s| - 1]), s[|s| - 1]);
      assert s == s[..|s| - 1] + [s[|s| - 1]];
    }
  }

  lemma SortedMore<T(!new)>(key: T -> int, s: seq<T>, y: T)
    requires Sorted(key, s) && forall x :: x in s ==> key(x) <= key(y)
    ensures Sorted(key, s + [y])
  {
  }

  lemma {:induction false} InsertSorted<T(!new)>(key: T -> int, s: seq<T>, x: T)
    requires Sorted(key, s)
    ensures Sorted(key, Insert(key, s, x))
  {
    if s != [] && key(x) < key(s[|s| - 1]) {
      var n := |s| - 1;
      var front := Insert(key, s[..n], x);
      InsertSorted(key, s[..n], x);
      InsertHas(key, s[..n], x);
      forall y | y in front ensures key(y) <= key(s[n]) {
        assert y in multiset(front);
        assert y == x || y in s[..n];
      }
      SortedMore(key, front, s[n]);
    } else {
      SortedMore(key, s, x);
    }
  }

  lemma {:induction false} SortSorts<T(!new)>(key: T -> int, s: seq<T>)
    ensures Sorted(key, Sort(key, s))
  {
    if s != [] {
      SortSorts(key, s[..|s| - 1]);
      InsertSorted(key, Sort(key, s[..|s| - 1]), s[|s| - 1]);
    }
  }

  lemma LastOfFilter<T(!new)>(key: T -> int, p: T -> bool, s: seq<T>)
    requires Sorted(key, s) && Filter(p, s) != []
    ensures s != [] && key(Filter(p, s)[|Filter(p, s)| - 1]) <= key(s[|s| - 1])
  {
    var y := Filter(p, s)[|Filter(p, s)| - 1];
    FilterHas(p, s, y);
    var i :| 0 <= i < |s| && s[i] == y;
  }

  lemma InsertLast<T>(key: T -> int, s: seq<T>, x: T)
    requires s != [] ==> key(s[|s| - 1]) <= key(x)
    ensures Insert(key, s, x) == s + [x]
  {
  }

  /** Inserting and dropping elements commute. */
  ghost predicate InsertAlike<T>(key: T -> int, p: T -> bool, s: seq<T>, x: T) {
    && (p(x) ==> Filter(p, Insert(key, s, x)) == Insert(key, Filter(p, s), x))
    && (!p(x) ==> Filter(p, Insert(key, s, x)) == Filter(p, s))
  }

  lemma InsertAtEnd<T(!new)>(key: T -> int, p: T -> bool, s: seq<T>, x: T)
    requires Sorted(key, s) && (s != [] ==> key(s[|s| - 1]) <= key(x))
    ensures InsertAlike(key, p, s, x)
  {
    InsertLast(key, s, x);
    FilterMore(p, s, x);
    var f := Filter(p, s);
    if f != [] { LastOfFilter(key, p, s); }
    InsertLast(key, f, x);
  }

  /** One step: x goes in front of y. */
  lemma InsertBefore<T>(key: T -> int, p: T -> bool, s: seq<T>, y: T, x: T)
    requires key(x) < key(y)
    requires InsertAlike(key, p, s, x)
    ensures InsertAlike(key, p, s + [y], x)
  {
    var f := Filter(p, s);
    InsertMore(key, s, y, x);
    InsertMore(key, f, y, x);
    FilterMore(p, Insert(key, s, x), y);
    FilterMore(p, s, y);
  }

  lemma {:induction false} FilterInsert<T(!new)>(key: T -> int, p: T -> bool, s: seq<T>, x: T)
    requires Sorted(key, s)
    ensures InsertAlike(key, p, s, x)
  {
    if s == [] || key(s[|s| - 1]) <= key(x) {
      InsertAtEnd(key, p, s, x);
    } else {
      var n := |s| - 1;
      FilterInsert(key, p, s[..n], x);
      InsertBefore(key, p, s[..n], s[n], x);
      assert s == s[..n] + [s[n]];
    }
  }

  lemma FilterSortMore<T(!new)>(key: T -> int, p: T -> bool, s: seq<T>, x: T)
    requires Filter(p, Sort(key, s)) == Sort(key, Filter(p, s))
    ensures Filter(p, Sort(key, s + [x])) == Sort(key, Filter(p, s + [x]))
  {
    SortMore(key, s, x);
    SortSorts(key, s);
    FilterInsert(key, p, Sort(key, s), x);
    FilterMore(p, s, x);
    SortMore(key, Filter(p, s), x);
  }

  /** Stability in full: dropping elements before or after sorting is the same. */
  lemma {:induction false} FilterSort<T(!new)>(key: T -> int, p: T -> bool, s: seq<T>)
    ensures Filter(p, Sort(key, s)) == Sort(key, Filter(p, s))
  {
    if s != [] {
      var n := |s| - 1;
      FilterSort(key, p, s[..n]);
      FilterSortMore(key, p, s[..n], s[n]);
      assert s == s[..n] + [s[n]];
    }
  }

  lemma {:induction false} SortOfSorted<T(!new)>(key: T -> int, s: seq<T>)
    requires Sorted(key, s)
    ensures Sort(key, s) == s
  {
    if s != [] {
      var n := |s| - 1;
      SortOfSorted(key, s[..n]);
      assert s == s[..n] + [s[n]];
      assert n > 0 ==> s[..n][n - 1] == s[n - 1];
    }
  }

  /** Elements of equal key keep their order. */
  lemma SortIsStable<T(!new)>(key: T -> int, s: seq<T>, k: int)
    ensures Filter(Alike(key, k), Sort(key, s)) == Filter(Alike(key, k), s)
  {
    var same := Filter(Alike(key, k), s);
    FilterSort(key, Alike(key, k), s);
    forall i | 0 <= i < |same| ensures key(same[i]) == k {
      FilterHas(Alike(key, k), s, same[i]);
    }
    SortOfSorted(key, same);
  }

  ghost predicate SameClasses<T(!new)>(key: T -> int, s: seq<T>, t: seq<T>) {
    forall k :: Filter(Alike(key, k), s) == Filter(Alike(key, k), t)
  }

  lemma LastKey<T(!new)>(key: T -> int, s: seq<T>, b: T, t: seq<T>, a: T)
    requires Sorted(key, s + [a]) && SameClasses(key, s + [a], t + [b])
    ensures key(b) <= key(a)
  {
    FilterHas(Alike(key, key(b)), t + [b], b);
    FilterHas(Alike(key, key(b)), s + [a], b);
    assert (t + [b])[|t|] == b;
    var u := s + [a];
    var j :| 0 <= j < |u| && u[j] == b;
    assert j < |s| ==> key(u[j]) <= key(u[|s|]);
  }

  lemma SnocInjective<T>(x: seq<T>, a: T, y: seq<T>, b: T)
    requires x + [a] == y + [b]
    ensures x == y && a == b
  {
    assert (x + [a])[..|x|] == x && (y + [b])[..|y|] == y;
    assert |x| == |y| && (x + [a])[|x|] == a && (y + [b])[|y|] == b;
  }

  lemma ClassOfLast<T>(p: T -> bool, s: seq<T>, a: T, t: seq<T>, b: T)
    requires p(a) == p(b) && Filter(p, s + [a]) == Filter(p, t + [b])
    ensures Filter(p, s) == Filter(p, t)
    ensures p(a) ==> a == b
  {
    FilterMore(p, s, a);
    FilterMore(p, t, b);
    var x, y := Filter(p, s), Filter(p, t);
    if p(a) {
      SnocInjective(x, a, y, b);
    }
  }

  lemma LastsAgree<T(!new)>(key: T -> int, s: seq<T>, a: T, t: seq<T>, b: T)
    requires Sorted(key, s + [a]) && Sorted(key, t + [b]) && SameClasses(key, s + [a], t + [b])
    ensures a == b && SameClasses(key, s, t)
  {
    LastKey(key, s, b, t, a);
    LastKey(key, t, a, s, b);
    ClassOfLast(Alike(key, key(a)), s, a, t, b);
    forall k ensures Filter(Alike(key, k), s) == Filter(Alike(key, k), t) {
      ClassOfLast(Alike(key, k), s, a, t, b);
    }
  }

  lemma EmptyClasses<T(!new)>(key: T -> int, s: seq<T>)
    requires SameClasses(key, s, []) || SameClasses(key, [], s)
    ensures s == []
  {
    if s != [] {
      FilterHas(Alike(key, key(s[0])), s, s[0]);
    }
  }

  /** The contract of a stable sort leaves only one answer. */
  lemma {:induction false} StableSortIsUnique<T(!new)>(key: T -> int, s: seq<T>, t: seq<T>)
    requires Sorted(key, s) && Sorted(key, t) && SameClasses(key, s, t)
    ensures s == t
    decreases |s|
  {
    if s == [] {
      EmptyClasses(key, t);
    } else if t == [] {
      EmptyClasses(key, s);
    } else {
      var a, b := s[|s| - 1], t[|t| - 1];
      var s', t' := s[..|s| - 1], t[..|t| - 1];
      assert s == s' + [a] && t == t' + [b];
      LastsAgree(key, s', a, t', b);
      StableSortIsUnique(key, s', t');
    }
  }

  lemma SortIffStable<T(!new)>(key: T -> int, s: seq<T>, t: seq<T>)
    ensures t == Sort(key, s) <==> Sorted(key, t) && SameClasses(key, s, t)
  {
    SortSorts(key, s);
    forall k ensures Filter(Alike(key, k), Sort(key, s)) == Filter(Alike(key, k), s) {
      SortIsStable(key, s, k);
    }
    if Sorted(key, t) && SameClasses(key, s, t) {
      StableSortIsUnique(key, t, Sort(key, s));
    }
  }
}
