/** Ranging over maps, and how their sizes change. */
module Maps {

  /** Ranging over a map: every key once, in an arbitrary order. */
  method AnyOrder<K, V>(m: map<K, V>) returns (keys: seq<K>)
    ensures multiset(keys) == multiset(m.Keys) && forall k :: k in keys ==> k in m
  {
    keys := [];
    var left := m.Keys;
    while left != {}
      invariant left <= m.Keys && forall k :: k in keys ==> k in m
      invariant multiset(keys) + multiset(left) == multiset(m.Keys)
      decreases |left|
    {
      var k :| k in left;
      left := left - {k};
      keys := keys + [k];
    }
  }

  /** Such an order meets every key, and none twice. */
  lemma OrderIsExact<K, V>(m: map<K, V>, keys: seq<K>)
    requires multiset(keys) == multiset(m.Keys)
    ensures |keys| == |m|
    ensures forall k :: k in m <==> k in keys
    ensures forall i, j :: 0 <= i < j < |keys| ==> keys[i] != keys[j]
  {
    assert |multiset(keys)| == |keys| && |multiset(m.Keys)| == |m.Keys|;
    forall k
      ensures k in m <==> k in keys
    {
      assert k in keys <==> k in multiset(keys);
      assert k in m <==> k in multiset(m.Keys);
    }
    forall i, j | 0 <= i < j < |keys|
      ensures keys[i] != keys[j]
    {
      if keys[i] == keys[j] {
        RepeatsAreCounted(keys, i, j);
      }
    }
  }

  lemma RepeatsAreCounted<K>(keys: seq<K>, i: nat, j: nat)
    requires i < j < |keys| && keys[i] == keys[j]
    ensures multiset(keys)[keys[j]] >= 2
  {
    var rest := keys[..j] + keys[j + 1..];
    assert keys == keys[..j] + [keys[j]] + keys[j + 1..];
    assert multiset(keys) == multiset(rest) + multiset{keys[j]};
    assert rest[i] == keys[j] && keys[j] in multiset(rest);
  }

  lemma SmallerMaps<K, V>(m: map<K, V>, gone: set<K>)
    ensures |m - gone| <= |m|
  {
    var n := m - gone;
    assert n.Keys <= m.Keys && m.Keys == n.Keys + (m.Keys - n.Keys);
    assert |m.Keys| == |n.Keys| + |m.Keys - n.Keys|;
  }

  lemma AdditionGrows<K, V>(m: map<K, V>, k: K, v: V)
    ensures |m[k := v]| <= |m| + 1
  {
    assert m[k := v].Keys == m.Keys + {k};
  }

  lemma NewKeyGrows<K, V>(m: map<K, V>, k: K, v: V)
    requires k !in m
    ensures |m[k := v]| == |m| + 1
  {
    assert m[k := v].Keys == m.Keys + {k};
  }

  lemma RemovalShrinks<K, V>(m: map<K, V>, k: K)
    requires k in m
    ensures |m - {k}| == |m| - 1
  {
    assert (m - {k}).Keys == m.Keys - {k};
  }

  /** The values of a map, added up. */
  ghost function MapSum(m: map<nat, nat>): nat
    decreases |m|
  {
    if m == map[] then 0
    else
      var k :| k in m;
      RemovalShrinks(m, k);
      m[k] + MapSum(m - {k})
  }

  lemma {:induction false} MapSumSplit(m: map<nat, nat>, k: nat)
    requires k in m
    ensures MapSum(m) == m[k] + MapSum(m - {k})
    decreases |m|
  {
    assert m != map[];
    var c :| c in m && MapSum(m) == m[c] + MapSum(m - {c});
    if c != k {
      RemovalShrinks(m, c);
      RemovalShrinks(m, k);
      MapSumSplit(m - {c}, k);
      MapSumSplit(m - {k}, c);
      assert m - {c} - {k} == m - {k} - {c};
    }
  }

  lemma MapSumAdd(m: map<nat, nat>, k: nat, v: nat)
    requires k !in m
    ensures MapSum(m[k := v]) == MapSum(m) + v
  {
    MapSumSplit(m[k := v], k);
    assert m[k := v] - {k} == m;
  }
}
