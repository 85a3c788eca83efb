// Python dictionaries as the sequence of their entries in iteration order.
// Assigning to a key that is present replaces its value where it stands;
// assigning to a new key adds an entry at the end.
module Dicts {
  import opened Text

  type Dict<V> = seq<(string, V)>

  /** The keys in iteration order. */
  function Keys<V>(d: Dict<V>): (r: seq<string>)
    ensures |r| == |d| && forall i :: 0 <= i < |d| ==> r[i] == d[i].0
  {
    if d == [] then [] else [d[0].0] + Keys(d[1..])
  }

  /** No key occurs twice. */
  predicate Distinct(ks: seq<string>) {
    forall i, j :: 0 <= i < j < |ks| ==> ks[i] != ks[j]
  }

  /** d[k], when k is a key. */
  function Get<V>(d: Dict<V>, k: string): (r: Option<V>)
    ensures r.Some? <==> k in Keys(d)
  {
    if d == [] then None
    else if d[0].0 == k then Some(d[0].1)
    else
      assert Keys(d) == [d[0].0] + Keys(d[1..]);
      Get(d[1..], k)
  }

  /** d.get(k, dflt). */
  function GetOr<V>(d: Dict<V>, k: string, dflt: V): (r: V)
    ensures k !in Keys(d) ==> r == dflt
    ensures k in Keys(d) ==> Get(d, k) == Some(r)
  {
    match Get(d, k)
    case Some(v) => v
    case None => dflt
  }

  /** With distinct keys, the value of each entry is what its key looks up. */
  lemma {:induction false} GetEntry<V>(d: Dict<V>, i: nat)
    requires Distinct(Keys(d)) && i < |d|
    ensures Get(d, d[i].0) == Some(d[i].1)
  {
    if i > 0 {
      assert Keys(d)[0] != Keys(d)[i];
      assert Keys(d[1..]) == Keys(d)[1..];
      GetEntry(d[1..], i - 1);
    }
  }

  /** d[k] = v: k now looks up v, every other key what it did before, and
      the keys keep their order, k added at the end if it is new. */
  function Put<V>(d: Dict<V>, k: string, v: V): (r: Dict<V>)
    ensures Get(r, k) == Some(v)
    ensures forall k' :: k' != k ==> Get(r, k') == Get(d, k')
    ensures k in Keys(d) ==> Keys(r) == Keys(d)
    ensures k !in Keys(d) ==> Keys(r) == Keys(d) + [k]
  {
    if d == [] then [(k, v)]
    else if d[0].0 == k then
      var r := [(k, v)] + d[1..];
      assert r[1..] == d[1..];
      assert Keys(r) == [k] + Keys(d[1..]);
      r
    else
      var r := [d[0]] + Put(d[1..], k, v);
      assert r[1..] == Put(d[1..], k, v);
      r
  }

  /** Assignment keeps the keys distinct. */
  lemma PutDistinct<V>(d: Dict<V>, k: string, v: V)
    requires Distinct(Keys(d))
    ensures Distinct(Keys(Put(d, k, v)))
  {
  }

  /** The values in iteration order. */
  function Values<V>(d: Dict<V>): (r: seq<V>)
    ensures |r| == |d| && forall i :: 0 <= i < |d| ==> r[i] == d[i].1
  {
    if d == [] then [] else [d[0].1] + Values(d[1..])
  }

  /** The number of values held in all the lists of a dictionary. */
  function Total(d: Dict<seq<string>>): nat {
    if d == [] then 0 else |d[0].1| + Total(d[1..])
  }

  /** Assigning v to k replaces the length of k's list by that of v. */
  lemma {:induction false} TotalPut(d: Dict<seq<string>>, k: string, v: seq<string>)
    requires Distinct(Keys(d))
    ensures Total(Put(d, k, v)) == Total(d) - |GetOr(d, k, [])| + |v|
  {
    if d != [] {
      if d[0].0 != k {
        assert Keys(d[1..]) == Keys(d)[1..];
        TotalPut(d[1..], k, v);
        assert Put(d, k, v) == [d[0]] + Put(d[1..], k, v);
        assert ([d[0]] + Put(d[1..], k, v))[1..] == Put(d[1..], k, v);
        assert GetOr(d, k, []) == GetOr(d[1..], k, []);
      } else {
        assert Put(d, k, v)[1..] == d[1..];
      }
    }
  }
}
