/**
 * Python dicts with string keys, as the extension parameters and the parsed
 * headers use them: (key, value) pairs in a fixed order, insertion order,
 * which stands in for the hash order a Python 2 dict iterates in. Assigning
 * to a key that is already there keeps its place; a new key goes at the end.
 */
module Dicts {
  import opened Errors

  type Dict<V> = seq<(string, V)>

  function Keys<V>(d: Dict<V>): (r: seq<string>)
    ensures |r| == |d|
    ensures forall i :: 0 <= i < |d| ==> r[i] == d[i].0
  {
    seq(|d|, i requires 0 <= i < |d| => d[i].0)
  }

  /** What every Python dict is: no key twice. */
  predicate UniqueKeys<V>(d: Dict<V>) {
    forall i, j :: 0 <= i < j < |d| ==> d[i].0 != d[j].0
  }

  /** `d.get(k)`. */
  function Get<V>(d: Dict<V>, k: string): (r: Option<V>)
    ensures r.Some? <==> k in Keys(d)
  {
    if |d| == 0 then None
    else if d[0].0 == k then Some(d[0].1)
    else
      assert Keys(d) == [d[0].0] + Keys(d[1..]);
      Get(d[1..], k)
  }

  /** `d[k] = v`. */
  function Set<V>(d: Dict<V>, k: string, v: V): Dict<V> {
    if |d| == 0 then [(k, v)]
    else if d[0].0 == k then [(k, v)] + d[1..]
    else [d[0]] + Set(d[1..], k, v)
  }

  /** `d.update(o)`: each pair of o assigned in turn. */
  function Update<V>(d: Dict<V>, o: Dict<V>): Dict<V>
    decreases |o|
  {
    if |o| == 0 then d else Update(Set(d, o[0].0, o[0].1), o[1..])
  }

  /** After `d[k] = v`, k maps to v and every other key to what it did. */
  lemma {:induction false} SetGet<V>(d: Dict<V>, k: string, v: V, key: string)
    ensures Get(Set(d, k, v), key) == if key == k then Some(v) else Get(d, key)
  {
    if |d| > 0 && d[0].0 != k {
      SetGet(d[1..], k, v, key);
      assert Set(d, k, v)[1..] == Set(d[1..], k, v);
    }
  }

  /** A new key goes at the end. */
  lemma {:induction false} SetFresh<V>(d: Dict<V>, k: string, v: V)
    requires k !in Keys(d)
    ensures Set(d, k, v) == d + [(k, v)]
  {
    if |d| > 0 {
      assert d[0].0 == Keys(d)[0];
      assert Keys(d[1..]) == Keys(d)[1..];
      SetFresh(d[1..], k, v);
      assert d == [d[0]] + d[1..];
    }
  }

  /** The keys of two dicts laid end to end. */
  lemma KeysConcat<V>(a: Dict<V>, b: Dict<V>)
    ensures Keys(a + b) == Keys(a) + Keys(b)
  {
  }

  /** Assigning keeps the keys and their order, adding a new key at the end. */
  lemma {:induction false} SetKeys<V>(d: Dict<V>, k: string, v: V)
    ensures Keys(Set(d, k, v)) == if k in Keys(d) then Keys(d) else Keys(d) + [k]
  {
    if |d| > 0 {
      var tail := Keys(d[1..]);
      KeysConcat([d[0]], d[1..]);
      assert d == [d[0]] + d[1..];
      if d[0].0 == k {
        KeysConcat([(k, v)], d[1..]);
      } else {
        SetKeys(d[1..], k, v);
        KeysConcat([d[0]], Set(d[1..], k, v));
        assert k in Keys(d) <==> k in tail;
      }
    }
  }

  /** Assigning to a dict keeps its keys distinct. */
  lemma SetUnique<V>(d: Dict<V>, k: string, v: V)
    requires UniqueKeys(d)
    ensures UniqueKeys(Set(d, k, v))
  {
    SetKeys(d, k, v);
    var r := Set(d, k, v);
    forall i, j | 0 <= i < j < |r|
      ensures r[i].0 != r[j].0
    {
      assert Keys(r)[i] == r[i].0 && Keys(r)[j] == r[j].0;
      if j < |d| {
        assert Keys(d)[i] == d[i].0 && Keys(d)[j] == d[j].0;
      } else {
        assert Keys(d)[i] == d[i].0;
      }
    }
  }

  /** After `d.update(o)`, a key of o maps to its value in o and any other key to its value in d. */
  lemma {:induction false} UpdateGet<V>(d: Dict<V>, o: Dict<V>, key: string)
    requires UniqueKeys(o)
    ensures Get(Update(d, o), key) == if key in Keys(o) then Get(o, key) else Get(d, key)
    decreases |o|
  {
    if |o| > 0 {
      assert Keys(o) == [o[0].0] + Keys(o[1..]);
      UpdateGet(Set(d, o[0].0, o[0].1), o[1..], key);
      SetGet(d, o[0].0, o[0].1, key);
      if key == o[0].0 {
        assert key !in Keys(o[1..]) by {
          forall i | 0 <= i < |o[1..]|
            ensures o[1..][i].0 != key
          {
            assert o[1..][i] == o[i + 1];
          }
        }
      }
    }
  }
}
