/** Python dicts as dnase.py uses them: insertion-ordered, one value per key. A dict is
    the sequence of its items in iteration order (the keys are always strings here), so that `for key, value in d.items()`
    and `d.update(e)` keep their order. */
module Dicts {
  import opened Results

  type Dict<V> = seq<(string, V)>

  /** The keys in iteration order. */
  function Keys<V>(d: Dict<V>): seq<string> {
    seq(|d|, i requires 0 <= i < |d| => d[i].0)
  }

  /** No key occurs twice, as in every Python dict. */
  predicate Valid<V>(d: Dict<V>) {
    forall i, j :: 0 <= i < j < |d| ==> d[i].0 != d[j].0
  }

  /** d.get(k): the value stored under k, if any. */
  function Get<V>(d: Dict<V>, k: string): (r: Option<V>)
    ensures r.Some? <==> k in Keys(d)
    ensures r.Some? ==> (k, r.value) in d
  {
    if |d| == 0 then None
    else if d[0].0 == k then
      assert d[0] == (k, d[0].1) && Keys(d)[0] == k;
      Some(d[0].1)
    else
      assert Keys(d) == [d[0].0] + Keys(d[1..]);
      Get(d[1..], k)
  }

  /** `d[k] = v`: k now maps to v and no other key changes. */
  function Set<V>(d: Dict<V>, k: string, v: V): (r: Dict<V>)
    ensures Get(r, k) == Some(v)
    ensures forall j :: j != k ==> Get(r, j) == Get(d, j)
  {
    if |d| == 0 then [(k, v)]
    else if d[0].0 == k then [(k, v)] + d[1..]
    else
      var r := [d[0]] + Set(d[1..], k, v);
      assert r[0] == d[0] && r[1..] == Set(d[1..], k, v);
      r
  }

  /** An existing key keeps its place in the iteration order and a new key goes last. */
  lemma {:induction false} SetKeys<V>(d: Dict<V>, k: string, v: V)
    ensures Keys(Set(d, k, v)) == if k in Keys(d) then Keys(d) else Keys(d) + [k]
  {
    if |d| == 0 {
      assert Keys(Set(d, k, v)) == [k];
      assert Keys(d) == [];
    } else {
      assert d == [d[0]] + d[1..];
      if d[0].0 == k {
        SetKeysHit(d[0], d[1..], v);
      } else {
        SetKeys(d[1..], k, v);
        SetKeysStep(d[0], d[1..], k, v);
      }
    }
  }

  /** SetKeys when the key assigned is the first one. */
  lemma SetKeysHit<V>(x: (string, V), t: Dict<V>, v: V)
    ensures x.0 in Keys([x] + t) && Keys(Set([x] + t, x.0, v)) == Keys([x] + t)
  {
    assert ([x] + t)[0] == x && ([x] + t)[1..] == t;
    assert Set([x] + t, x.0, v) == [(x.0, v)] + t;
    KeysCons(x, t);
    KeysCons((x.0, v), t);
  }

  /** SetKeys for an item in front of the key being assigned. */
  lemma SetKeysStep<V>(x: (string, V), t: Dict<V>, k: string, v: V)
    requires x.0 != k
    requires Keys(Set(t, k, v)) == if k in Keys(t) then Keys(t) else Keys(t) + [k]
    ensures Keys(Set([x] + t, k, v)) == if k in Keys([x] + t) then Keys([x] + t) else Keys([x] + t) + [k]
  {
    assert ([x] + t)[0] == x && ([x] + t)[1..] == t;
    assert Set([x] + t, k, v) == [x] + Set(t, k, v);
    KeysCons(x, t);
    KeysCons(x, Set(t, k, v));
    KeysConsSnoc(x.0, Keys(t), k);
  }

  /** The keys of a dict with one more item in front. */
  lemma KeysCons<V>(x: (string, V), d: Dict<V>)
    ensures Keys([x] + d) == [x.0] + Keys(d)
  {
  }

  lemma KeysConsSnoc(x: string, ks: seq<string>, k: string)
    ensures [x] + (ks + [k]) == ([x] + ks) + [k]
  {
  }

  /** `d.update(e)`: e's items assigned into d one after another, in e's order. Keys
      already in d keep their places. */
  function Update<V>(d: Dict<V>, e: Dict<V>): (r: Dict<V>)
    ensures |d| <= |r| && Keys(r)[..|d|] == Keys(d)
    ensures Valid(d) ==> Valid(r)
    decreases |e|
  {
    if |e| == 0 then d
    else
      var d' := Set(d, e[0].0, e[0].1);
      assert |d| <= |d'| && Keys(d')[..|d|] == Keys(d) && (Valid(d) ==> Valid(d')) by {
        SetKeys(d, e[0].0, e[0].1);
        if Valid(d) { SetValid(d, e[0].0, e[0].1); }
      }
      Update(d', e[1..])
  }

  /** Assignment keeps the keys distinct. */
  lemma SetValid<V>(d: Dict<V>, k: string, v: V)
    requires Valid(d)
    ensures Valid(Set(d, k, v))
  {
    var r := Set(d, k, v);
    SetKeys(d, k, v);
    forall i, j | 0 <= i < j < |r|
      ensures r[i].0 != r[j].0
    {
      assert Keys(r)[i] == r[i].0 && Keys(r)[j] == r[j].0;
      if j < |d| {
        assert Keys(d)[i] == d[i].0 && Keys(d)[j] == d[j].0;
      } else {
        assert Keys(d)[i] == d[i].0;
      }
    }
  }

  /** In a valid dict, each item is what Get finds under its key. */
  lemma {:induction false} GetItem<V>(d: Dict<V>, i: nat)
    requires Valid(d) && i < |d|
    ensures Get(d, d[i].0) == Some(d[i].1)
  {
    if i > 0 {
      GetItem(d[1..], i - 1);
    }
  }

  /** Assigning the value a key already has changes nothing, position included. */
  lemma {:induction false} SetSame<V>(d: Dict<V>, k: string, v: V)
    requires Get(d, k) == Some(v)
    ensures Set(d, k, v) == d
  {
    if d[0].0 != k {
      SetSame(d[1..], k, v);
    }
  }

  /** After `d.update(e)`, a key of e holds e's value and every other key holds d's. */
  lemma {:induction false} UpdateGet<V>(d: Dict<V>, e: Dict<V>, k: string)
    requires Valid(e)
    ensures Get(Update(d, e), k) == if k in Keys(e) then Get(e, k) else Get(d, k)
    decreases |e|
  {
    if |e| > 0 {
      assert Keys(e) == [e[0].0] + Keys(e[1..]);
      UpdateGet(Set(d, e[0].0, e[0].1), e[1..], k);
    }
  }

  /** Updating with items that are all already present changes nothing. */
  lemma {:induction false} UpdatePresent<V>(d: Dict<V>, e: Dict<V>)
    requires forall i :: 0 <= i < |e| ==> Get(d, e[i].0) == Some(e[i].1)
    ensures Update(d, e) == d
  {
    if |e| > 0 {
      SetSame(d, e[0].0, e[0].1);
      UpdatePresent(d, e[1..]);
    }
  }

  /** `d.update(e); d.update(e)` leaves the same dict as one `d.update(e)`. */
  lemma UpdateTwice<V>(d: Dict<V>, e: Dict<V>)
    requires Valid(e)
    ensures Update(Update(d, e), e) == Update(d, e)
  {
    var r := Update(d, e);
    forall i | 0 <= i < |e|
      ensures Get(r, e[i].0) == Some(e[i].1)
    {
      UpdateGet(d, e, e[i].0);
      GetItem(e, i);
    }
    UpdatePresent(r, e);
  }
}
