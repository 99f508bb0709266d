/** The bag of the values of a map. */
module Bags {

  ghost function Pick<K>(keys: set<K>): (k: K)
    requires keys != {}
    ensures k in keys
  {
    var k :| k in keys;
    k
  }

  /** The values of a map, as often as they occur. */
  ghost function Bag<K, V>(m: map<K, V>): multiset<V> {
    if m == map[] then multiset{}
    else
      assert m.Keys != {};
      var k := Pick(m.Keys);
      Bag(m - {k}) + multiset{m[k]}
  }

  /** Any key may be taken out first. */
  lemma {:induction false} BagPick<K, V>(m: map<K, V>, k: K)
    requires k in m
    ensures Bag(m) == Bag(m - {k}) + multiset{m[k]}
    decreases |m|
  {
    var j := Pick(m.Keys);
    if j != k {
      RemoveTwo(m, j, k);
      BagPick(m - {j}, k);
      BagPick(m - {k}, j);
      BagFirst(m);
    }
  }

  lemma BagFirst<K, V>(m: map<K, V>)
    requires m != map[]
    ensures m.Keys != {}
    ensures var j := Pick(m.Keys); Bag(m) == Bag(m - {j}) + multiset{m[j]}
  {
  }

  lemma RemoveTwo<K, V>(m: map<K, V>, j: K, k: K)
    requires j in m && k in m && j != k
    ensures m - {j} - {k} == m - {k} - {j}
    ensures |m - {j}| < |m| && |m - {k}| < |m|
    ensures k in m - {j} && j in m - {k} && (m - {j})[k] == m[k] && (m - {k})[j] == m[j]
  {
  }

  lemma {:induction false} InBag<K, V>(m: map<K, V>, v: V) returns (k: K)
    requires v in Bag(m)
    ensures k in m && m[k] == v
    decreases |m|
  {
    BagFirst(m);
    k := Pick(m.Keys);
    if m[k] != v {
      assert (m - {k}).Keys == m.Keys - {k};
      k := InBag(m - {k}, v);
    }
  }
}
