/** The sum of the values of a finite map, independent of the order in which its keys are visited. */
module MapSum {

  ghost function Sum(m: map<string, nat>): nat
  {
    if m == map[] then 0
    else
      var k :| k in m;
      m[k] + Sum(m - {k})
  }

  /** Any key may be taken out first. */
  lemma {:induction false} SumTake(m: map<string, nat>, k: string)
    requires k in m
    ensures Sum(m) == m[k] + Sum(m - {k})
    decreases |m|
  {
    var c :| c in m && Sum(m) == m[c] + Sum(m - {c});
    if c != k {
      SumTake(m - {c}, k);
      SumTake(m - {k}, c);
      assert m - {c} - {k} == m - {k} - {c};
    }
  }

  lemma SumUpdate(m: map<string, nat>, k: string, v: nat)
    ensures Sum(m[k := v]) == v + Sum(m - {k})
  {
    SumTake(m[k := v], k);
    assert m[k := v] - {k} == m - {k};
  }

  ghost function Part(m: map<string, nat>, keys: set<string>): map<string, nat> {
    map k | k in keys && k in m :: m[k]
  }

  ghost function SumOver(m: map<string, nat>, keys: set<string>): nat {
    Sum(Part(m, keys))
  }

  lemma SumOverTake(m: map<string, nat>, keys: set<string>, k: string)
    requires k in m && k in keys
    ensures SumOver(m, keys) == m[k] + SumOver(m, keys - {k})
  {
    SumTake(Part(m, keys), k);
    assert Part(m, keys) - {k} == Part(m, keys - {k});
  }

  lemma SumOverEnds(m: map<string, nat>)
    ensures SumOver(m, m.Keys) == Sum(m) && SumOver(m, {}) == 0
  {
    assert Part(m, m.Keys) == m && Part(m, {}) == map[];
  }

  lemma {:induction false} SumZero(m: map<string, nat>)
    ensures Sum(m) == 0 <==> forall k :: k in m ==> m[k] == 0
    decreases |m|
  {
    if m != map[] {
      var c :| c in m && Sum(m) == m[c] + Sum(m - {c});
      SumZero(m - {c});
      assert forall k :: k in m ==> k == c || k in m - {c};
    }
  }
}
