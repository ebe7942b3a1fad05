/** JavaScript's `Map`, whose iteration order is part of the behaviour the
    board depends on: entries are visited in the order their keys were first
    inserted, `set` on a present key replaces the value where it stands, and
    `delete` removes the entry. */
module JsMap {
  import opened Wrappers

  /** The entries in iteration order. */
  type OrderedMap<K, V> = seq<(K, V)>

  function Keys<K, V>(m: OrderedMap<K, V>): (r: seq<K>)
    ensures |r| == |m|
    ensures forall i {:trigger r[i]} :: 0 <= i < |m| ==> r[i] == m[i].0
  {
    if |m| == 0 then [] else [m[0].0] + Keys(m[1..])
  }

  /** `m.get(k)`: the value of the first entry with key `k`, or `undefined`. */
  function Get<K(==), V>(m: OrderedMap<K, V>, k: K): (r: Option<V>)
    ensures r.None? <==> k !in Keys(m)
    ensures r.Some? ==> exists i :: 0 <= i < |m| && m[i] == (k, r.value)
  {
    if |m| == 0 then None
    else if m[0].0 == k then Some(m[0].1)
    else Get(m[1..], k)
  }

  /** `get` finds the first entry with the key. */
  lemma {:induction false} GetFirst<K, V>(m: OrderedMap<K, V>, i: nat, k: K)
    requires i < |m| && m[i].0 == k
    requires forall j :: 0 <= j < i ==> m[j].0 != k
    ensures Get(m, k) == Some(m[i].1)
  {
    if i > 0 {
      GetFirst(m[1..], i - 1, k);
    }
  }

  /** `m.set(k, v)`: the value of `k` is replaced where it stands, or a new
      entry is appended (see `SetShape`). */
  function Set<K(==,!new), V>(m: OrderedMap<K, V>, k: K, v: V): (r: OrderedMap<K, V>)
    ensures Get(r, k) == Some(v)
    ensures forall k' :: k' != k ==> Get(r, k') == Get(m, k')
    decreases |m|
  {
    if |m| == 0 then [(k, v)]
    else
      assert m == [m[0]] + m[1..];
      if m[0].0 == k then
        var r := [(k, v)] + m[1..];
        forall k' ensures Get(r, k') == if k' == k then Some(v) else Get(m, k') {
          GetCons((k, v), m[1..], k');
          GetCons(m[0], m[1..], k');
        }
        r
      else
        var rest := Set(m[1..], k, v);
        var r := [m[0]] + rest;
        forall k' ensures Get(r, k') == if k' == k then Some(v) else Get(m, k') {
          GetCons(m[0], rest, k');
          GetCons(m[0], m[1..], k');
        }
        r
  }

  /** `set` on a present key keeps the keys in place; on a new key it appends. */
  lemma SetShape<K(!new), V>(m: OrderedMap<K, V>, k: K, v: V)
    ensures k in Keys(m) ==> Keys(Set(m, k, v)) == Keys(m)
    ensures k !in Keys(m) ==> Set(m, k, v) == m + [(k, v)]
  {
    if k in Keys(m) {
      SetPresent(m, k, v);
    } else {
      SetAbsent(m, k, v);
    }
  }

  lemma {:induction false} SetPresent<K(!new), V>(m: OrderedMap<K, V>, k: K, v: V)
    requires k in Keys(m)
    ensures Keys(Set(m, k, v)) == Keys(m)
    decreases |m|
  {
    KeysCons(m[0], m[1..]);
    assert m == [m[0]] + m[1..];
    if m[0].0 == k {
      KeysCons((k, v), m[1..]);
    } else {
      SetPresent(m[1..], k, v);
      KeysCons(m[0], Set(m[1..], k, v));
    }
  }

  lemma {:induction false} SetAbsent<K(!new), V>(m: OrderedMap<K, V>, k: K, v: V)
    requires k !in Keys(m)
    ensures Set(m, k, v) == m + [(k, v)]
    decreases |m|
  {
    if |m| > 0 {
      assert Keys(m)[0] == m[0].0;
      assert k !in Keys(m[1..]) by {
        KeysCons(m[0], m[1..]);
        assert m == [m[0]] + m[1..];
      }
      SetAbsent(m[1..], k, v);
      assert Set(m, k, v) == [m[0]] + Set(m[1..], k, v);
      assert [m[0]] + (m[1..] + [(k, v)]) == m + [(k, v)];
    }
  }

  lemma GetCons<K, V>(h: (K, V), t: OrderedMap<K, V>, k: K)
    ensures Get([h] + t, k) == if h.0 == k then Some(h.1) else Get(t, k)
  {
    assert ([h] + t)[1..] == t;
  }

  lemma KeysCons<K, V>(h: (K, V), t: OrderedMap<K, V>)
    ensures Keys([h] + t) == [h.0] + Keys(t)
  {
    assert ([h] + t)[1..] == t;
  }

  /** After `m.set(k, v)` the keys are the old keys and `k`. */
  lemma SetKeys<K(!new), V>(m: OrderedMap<K, V>, k: K, v: V, x: K)
    ensures x in Keys(Set(m, k, v)) <==> x in Keys(m) || x == k
  {
    var r := Set(m, k, v);
    if x != k {
      assert Get(r, x) == Get(m, x);
    }
  }

  /** `m.delete(k)`: every other entry keeps its value and its place. */
  function Delete<K(==,!new), V>(m: OrderedMap<K, V>, k: K): (r: OrderedMap<K, V>)
    ensures Get(r, k) == None
    ensures forall k' :: k' != k ==> Get(r, k') == Get(m, k')
    ensures |r| <= |m|
    ensures k in Keys(m) ==> |r| < |m|
    ensures forall x :: x in Keys(r) <==> x in Keys(m) && x != k
  {
    if |m| == 0 then []
    else if m[0].0 == k then Delete(m[1..], k)
    else
      var rest := Delete(m[1..], k);
      var r := [m[0]] + rest;
      assert r[0] == m[0] && r[1..] == rest;
      r
  }

  /** The values in iteration order, as `Array.from(m.values())`. */
  function Values<K, V>(m: OrderedMap<K, V>): (r: seq<V>)
    ensures |r| == |m|
    ensures forall i :: 0 <= i < |m| ==> r[i] == m[i].1
  {
    if |m| == 0 then [] else [m[0].1] + Values(m[1..])
  }

  /** `m.forEach((v, k) => m.set(k, f(v)))`: every entry rewritten where it stands. */
  function MapValues<K, V>(m: OrderedMap<K, V>, f: V -> V): (r: OrderedMap<K, V>)
    ensures |r| == |m|
    ensures forall i :: 0 <= i < |m| ==> r[i] == (m[i].0, f(m[i].1))
  {
    if |m| == 0 then [] else [(m[0].0, f(m[0].1))] + MapValues(m[1..], f)
  }

  /** Rewriting every entry keeps the keys and rewrites what `get` returns. */
  lemma {:induction false} GetMapValues<K, V>(m: OrderedMap<K, V>, f: V -> V, k: K)
    ensures Keys(MapValues(m, f)) == Keys(m)
    ensures Get(MapValues(m, f), k) == if Get(m, k).Some? then Some(f(Get(m, k).value)) else None
  {
    if |m| > 0 {
      GetMapValues(m[1..], f, k);
      assert MapValues(m, f)[1..] == MapValues(m[1..], f);
    }
  }

  /** `m.forEach((v, k) => { if (!keep(v)) m.delete(k); })`: the entries that
      are kept stay in order. */
  function FilterValues<K(!new), V(!new)>(m: OrderedMap<K, V>, keep: V -> bool): (r: OrderedMap<K, V>)
    ensures |r| <= |m|
    ensures forall x :: x in r <==> x in m && keep(x.1)
    ensures |r| == |m| <==> forall i :: 0 <= i < |m| ==> keep(m[i].1)
  {
    if |m| == 0 then []
    else
      var rest := FilterValues(m[1..], keep);
      assert forall x :: x in m <==> x == m[0] || x in m[1..];
      if keep(m[0].1) then [m[0]] + rest else rest
  }

  /** The index of the first entry, in iteration order, satisfying `p`: a
      `for (const [k, v] of m.entries())` loop that returns at the first hit. */
  function FindEntry<K, V>(m: OrderedMap<K, V>, p: (K, V) -> bool): (r: Option<nat>)
    ensures r.Some? ==> r.value < |m| && p(m[r.value].0, m[r.value].1)
    ensures r.Some? ==> forall i :: 0 <= i < r.value ==> !p(m[i].0, m[i].1)
    ensures r.None? <==> forall i :: 0 <= i < |m| ==> !p(m[i].0, m[i].1)
    decreases |m|
  {
    if |m| == 0 then None
    else if p(m[0].0, m[0].1) then Some(0)
    else
      match FindEntry(m[1..], p)
      case None =>
        assert forall i :: 1 <= i < |m| ==> m[i] == m[1..][i - 1];
        None
      case Some(j) => Some(j + 1)
  }
}
