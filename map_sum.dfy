/** Sums over the values of a finite map, independent of iteration order. */
module MapSum {

  ghost function Sum(m: map<nat, int>): int
    decreases |m|
  {
    if m == map[] then 0
    else
      var k :| k in m;
      m[k] + Sum(m - {k})
  }

  /** Any key may be taken out first. */
  lemma {:induction false} SumRemove(m: map<nat, int>, k: nat)
    requires k in m
    ensures Sum(m) == m[k] + Sum(m - {k})
    decreases |m|
  {
    var j :| j in m && Sum(m) == m[j] + Sum(m - {j});
    if j != k {
      SumRemove(m - {j}, k);
      SumRemove(m - {k}, j);
      assert m - {j} - {k} == m - {k} - {j};
    }
  }

  lemma SumInsert(m: map<nat, int>, k: nat, v: int)
    ensures Sum(m[k := v]) == Sum(m - {k}) + v
  {
    SumRemove(m[k := v], k);
    assert m[k := v] - {k} == m - {k};
  }

  /** A map whose values are all 1 sums to its number of keys. */
  lemma {:induction false} SumOfOnes(m: map<nat, int>)
    requires forall k :: k in m ==> m[k] == 1
    ensures Sum(m) == |m|
    decreases |m|
  {
    if m != map[] {
      var k :| k in m;
      SumRemove(m, k);
      SumOfOnes(m - {k});
    }
  }

  /** With non-negative values, dropping keys never increases the sum. */
  lemma {:induction false} SumOfSubmap(sub: map<nat, int>, m: map<nat, int>)
    requires forall k :: k in sub ==> k in m && sub[k] == m[k]
    requires forall k :: k in m ==> m[k] >= 0
    ensures Sum(sub) <= Sum(m)
    decreases |m|
  {
    if m != map[] {
      var k :| k in m;
      SumRemove(m, k);
      if k in sub {
        SumRemove(sub, k);
        SumOfSubmap(sub - {k}, m - {k});
      } else {
        assert sub == sub - {k};
        SumOfSubmap(sub, m - {k});
      }
    }
  }
}
