/**
 * Python's `dict`: a table of distinct keys that remembers insertion order.
 * It is modelled as a sequence of (key, value) pairs; `Valid` says the keys
 * are distinct. Assigning an existing key keeps its position, a new key goes
 * to the end, and `del` removes the key without disturbing the others.
 */
module Dicts {
  import opened Wrappers

  type Dict<K, V> = seq<(K, V)>

  /** No key occurs twice. */
  ghost predicate Valid<K, V>(d: Dict<K, V>) {
    forall i, j :: 0 <= i < j < |d| ==> d[i].0 != d[j].0
  }

  /** The keys, in insertion order (iterating over the dict). */
  function Keys<K, V>(d: Dict<K, V>): (ks: seq<K>)
    ensures |ks| == |d|
    ensures forall i :: 0 <= i < |d| ==> ks[i] == d[i].0
  {
    if d == [] then [] else [d[0].0] + Keys(d[1..])
  }

  /** `d.get(k)`: the value stored under `k`, if any. */
  function Get<K(==), V>(d: Dict<K, V>, k: K): (r: Option<V>)
    ensures r.Some? <==> k in Keys(d)
  {
    if d == [] then None
    else if d[0].0 == k then Some(d[0].1)
    else Get(d[1..], k)
  }

  /** A lookup that succeeds returns a stored entry. */
  lemma {:induction false} GetFound<K, V>(d: Dict<K, V>, k: K)
    requires Get(d, k).Some?
    ensures (k, Get(d, k).value) in d
  {
    if d[0].0 != k {
      GetFound(d[1..], k);
    }
  }

  /** `d[k] = v`: an existing key keeps its place, a new key is appended. */
  function Put<K(==,!new), V>(d: Dict<K, V>, k: K, v: V): (r: Dict<K, V>)
    ensures Keys(r) == if k in Keys(d) then Keys(d) else Keys(d) + [k]
    ensures Get(r, k) == Some(v)
    ensures forall j :: j != k ==> Get(r, j) == Get(d, j)
  {
    if d == [] then [(k, v)]
    else if d[0].0 == k then [(k, v)] + d[1..]
    else [d[0]] + Put(d[1..], k, v)
  }

  /** Assigning a key keeps the keys distinct. */
  lemma {:induction false} PutValid<K(!new), V>(d: Dict<K, V>, k: K, v: V)
    requires Valid(d)
    ensures Valid(Put(d, k, v))
  {
    if d != [] {
      ValidCons(d[0], d[1..]);
      if d[0].0 == k {
        ValidCons((k, v), d[1..]);
      } else {
        PutValid(d[1..], k, v);
        ValidCons(d[0], Put(d[1..], k, v));
      }
    }
  }

  /** Assigning a new key appends its entry. */
  lemma {:induction false} PutAbsent<K(!new), V>(d: Dict<K, V>, k: K, v: V)
    requires k !in Keys(d)
    ensures Put(d, k, v) == d + [(k, v)]
  {
    if d != [] {
      assert k != d[0].0;
      assert k !in Keys(d[1..]);
      PutAbsent(d[1..], k, v);
      assert d == [d[0]] + d[1..];
    }
  }

  /** Assigning a key twice is assigning it the second value: the last assignment wins. */
  lemma {:induction false} PutTwice<K(!new), V>(d: Dict<K, V>, k: K, a: V, b: V)
    ensures Put(Put(d, k, a), k, b) == Put(d, k, b)
  {
    if d != [] && d[0].0 != k {
      PutTwice(d[1..], k, a, b);
    }
  }

  /** `del d[k]` (and nothing when `k` is absent): every other entry stays, in order. */
  function Remove<K(==,!new), V(!new)>(d: Dict<K, V>, k: K): (r: Dict<K, V>)
    ensures forall j :: j in Keys(r) <==> j in Keys(d) && j != k
    ensures Get(r, k) == None
    ensures forall j :: j != k ==> Get(r, j) == Get(d, j)
    ensures k !in Keys(d) ==> r == d
  {
    if d == [] then []
    else if d[0].0 == k then Remove(d[1..], k)
    else [d[0]] + Remove(d[1..], k)
  }

  /** `{k: f(v) for k, v in d.items()}`: same keys in the same order, each value mapped. */
  function MapValues<K, V, W>(d: Dict<K, V>, f: V -> W): (r: Dict<K, W>)
    ensures Keys(r) == Keys(d)
    ensures forall i :: 0 <= i < |d| ==> r[i].1 == f(d[i].1)
  {
    if d == [] then [] else [(d[0].0, f(d[0].1))] + MapValues(d[1..], f)
  }

  /** Looking up a mapped dict is looking up the original and mapping the value. */
  lemma {:induction false} GetMapValues<K, V, W>(d: Dict<K, V>, f: V -> W, k: K)
    ensures Get(MapValues(d, f), k) == match Get(d, k) case Some(v) => Some(f(v)) case None => None
  {
    if d != [] && d[0].0 != k {
      GetMapValues(d[1..], f, k);
    }
  }

  /** In a valid dict the first key does not occur again. */
  lemma HeadNotInTail<K, V>(d: Dict<K, V>)
    requires Valid(d) && d != []
    ensures d[0].0 !in Keys(d[1..])
  {
    forall i | 0 <= i < |d| - 1 ensures Keys(d[1..])[i] != d[0].0 {
      assert Keys(d[1..])[i] == d[i + 1].0;
    }
  }

  /** Prepending an entry keeps a dict valid exactly when its key is new. */
  lemma ValidCons<K, V>(e: (K, V), d: Dict<K, V>)
    ensures Valid([e] + d) <==> e.0 !in Keys(d) && Valid(d)
  {
    if Valid([e] + d) {
      HeadNotInTail([e] + d);
      assert ([e] + d)[1..] == d;
    }
  }
}
