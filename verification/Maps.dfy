/** Facts about finite maps with string keys that the solver needs spelled out. */
module Maps {
  ghost function Pick<V>(m: map<string, V>): (k: string)
    requires m != map[]
    ensures k in m
  {
    var k :| k in m; k
  }

  lemma RemoveShrinks<V>(m: map<string, V>, k: string)
    requires k in m
    ensures |m - {k}| == |m| - 1
  {}

  lemma UpdateTwice<V>(m: map<string, V>, k: string, v: V, v': V)
    ensures m[k := v][k := v'] == m[k := v']
  {}

  lemma MergeShift<V>(m: map<string, V>, k: string, v: V, rest: map<string, V>)
    ensures m + (map[k := v] + rest) == m[k := v] + rest
  {}

  lemma EqualPointwise<V>(m: map<string, V>, m': map<string, V>)
    ensures m == m' <==> m.Keys == m'.Keys && forall k :: k in m && k in m' ==> m[k] == m'[k]
  {}
}
