/** Python dictionaries as the handler uses them: string keys, iteration in
    insertion order, and assignment to an existing key replacing the value
    in place (the key keeps its position). */
module OrderedDicts {
  import opened Wrappers

  /** A dictionary as its sequence of items in iteration order. */
  type Entries<V> = seq<(string, V)>

  /** No key occurs twice. */
  predicate UniqueKeys<V>(d: Entries<V>) {
    forall i, j :: 0 <= i < j < |d| ==> d[i].0 != d[j].0
  }

  /** The keys in iteration order. */
  function Keys<V>(d: Entries<V>): (ks: seq<string>)
    ensures |ks| == |d|
    ensures forall i :: 0 <= i < |d| ==> ks[i] == d[i].0
  {
    if d == [] then [] else [d[0].0] + Keys(d[1..])
  }

  /** `d.get(k)`: the value stored under `k`, if any. */
  function Get<V>(d: Entries<V>, k: string): (r: Option<V>)
    ensures r.None? <==> k !in Keys(d)
    ensures r.Some? ==> exists i :: 0 <= i < |d| && d[i] == (k, r.value)
  {
    if d == [] then None
    else if d[0].0 == k then Some(d[0].1)
    else Get(d[1..], k)
  }

  /** `d[k] = v`. */
  function Put<V>(d: Entries<V>, k: string, v: V): (d': Entries<V>)
    ensures UniqueKeys(d) ==> UniqueKeys(d')
    ensures UniqueKeys(d) ==> Get(d', k) == Some(v)
    ensures forall k' :: k' != k ==> Get(d', k') == Get(d, k')
    ensures forall j :: 0 <= j < |d'| ==> d'[j] == (k, v) || d'[j] in d
    ensures k in Keys(d) ==> Keys(d') == Keys(d)
    ensures k !in Keys(d) ==> Keys(d') == Keys(d) + [k]
  {
    if d == [] then [(k, v)]
    else if d[0].0 == k then [(k, v)] + d[1..]
    else [d[0]] + Put(d[1..], k, v)
  }
}
