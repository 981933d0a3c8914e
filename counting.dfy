/** `buildFreqMap` (src/search/search.ts): a map from each distinct value of a
    list to its number of occurrences, built one value at a time. The same
    counting loop appears in vec.ts for the corpus map and for the per-document
    term counts, which is why the specification lives here. */
module Counting {

  /** Specification: every distinct value to its multiplicity. */
  function CountMap<T(==)>(values: seq<T>): map<T, nat> {
    map v | v in values :: multiset(values)[v]
  }

  /** All values of a list of lists, in order. */
  function Flatten<T>(ts: seq<seq<T>>): seq<T> {
    if ts == [] then [] else Flatten(ts[..|ts| - 1]) + ts[|ts| - 1]
  }

  /** The count of `v` in a count map, zero when it is absent. */
  function Count<T>(m: map<T, nat>, v: T): nat {
    if v in m then m[v] else 0
  }

  /** The sum of all counts of a map. */
  ghost function Total<T>(m: map<T, nat>): nat
    decreases |m|
  {
    if m == map[] then 0
    else
      var k :| k in m;
      m[k] + Total(m - {k})
  }

  /** `Total` may take any key first. */
  lemma {:induction false} TotalRemove<T>(m: map<T, nat>, k: T)
    requires k in m
    ensures Total(m) == m[k] + Total(m - {k})
    decreases |m|
  {
    var j :| j in m && Total(m) == m[j] + Total(m - {j});
    if j != k {
      assert |m - {j}| == |m| - 1;
      assert |m - {k}| == |m| - 1;
      TotalRemove(m - {j}, k);
      TotalRemove(m - {k}, j);
      assert m - {j} - {k} == m - {k} - {j};
    }
  }

  /** Counting one more value: its count goes up by one, every other count
      stays as it was. */
  lemma CountMapSnoc<T>(values: seq<T>, v: T)
    ensures CountMap(values + [v]) ==
      CountMap(values)[v := (if v in CountMap(values) then CountMap(values)[v] else 0) + 1]
  {
    var a, b := CountMap(values + [v]), CountMap(values)[v := (if v in CountMap(values) then CountMap(values)[v] else 0) + 1];
    assert a.Keys == b.Keys;
    forall x | x in a ensures a[x] == b[x] {
      assert multiset(values + [v]) == multiset(values) + multiset{v};
    }
  }

  /** The counts add up to the length of the list. */
  lemma {:induction false} TotalCountMap<T>(values: seq<T>)
    ensures Total(CountMap(values)) == |values|
  {
    if values == [] {
      assert CountMap(values) == map[];
    } else {
      var a, v := values[..|values| - 1], values[|values| - 1];
      assert values == a + [v];
      TotalCountMap(a);
      CountMapSnoc(a, v);
      var before, after := CountMap(a), CountMap(values);
      TotalRemove(after, v);
      assert after - {v} == before - {v};
      if v in before {
        TotalRemove(before, v);
      } else {
        assert before - {v} == before;
      }
    }
  }

  /** `buildFreqMap`: the keys are exactly the distinct values, each count is
      that value's number of occurrences (so at least one), and the counts add
      up to the number of values. */
  method BuildFreqMap<T(==)>(values: seq<T>) returns (m: map<T, nat>)
    ensures m == CountMap(values)
    ensures m.Keys == set v | v in values
    ensures forall v :: v in m ==> m[v] == multiset(values)[v] && m[v] >= 1
    ensures Total(m) == |values|
  {
    m := map[];
    for i := 0 to |values|
      invariant m == CountMap(values[..i])
    {
      var count := if values[i] in m then m[values[i]] else 0;
      count := count + 1;
      CountMapSnoc(values[..i], values[i]);
      m := m[values[i] := count];
      assert values[..i + 1] == values[..i] + [values[i]];
    }
    assert values[..|values|] == values;
    TotalCountMap(values);
  }
}
