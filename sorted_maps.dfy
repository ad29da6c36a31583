/**
 * The `TreeMap<String, V>` that `getAsMap` fills: entries kept in strictly
 * increasing key order, `put` replacing the value of a key already present.
 */
module SortedMaps {
  import opened Results
  import opened StringOrder

  datatype Entry<V> = Entry(key: string, value: V)

  /** Keys strictly increase from one entry to the next (so no key occurs twice). */
  predicate Sorted<V>(m: seq<Entry<V>>)
  {
    forall i, j :: 0 <= i < j < |m| ==> Less(m[i].key, m[j].key)
  }

  ghost function Keys<V>(m: seq<Entry<V>>): set<string>
  {
    set i | 0 <= i < |m| :: m[i].key
  }

  lemma KeysCons<V>(m: seq<Entry<V>>)
    requires m != []
    ensures Keys(m) == {m[0].key} + Keys(m[1..])
  {
    forall k | k in Keys(m) ensures k in {m[0].key} + Keys(m[1..]) {
      var i :| 0 <= i < |m| && m[i].key == k;
      if i > 0 {
        assert m[1..][i - 1].key == k;
      }
    }
    forall k | k in Keys(m[1..]) ensures k in Keys(m) {
      var i :| 0 <= i < |m[1..]| && m[1..][i].key == k;
      assert m[i + 1].key == k;
    }
  }

  /** `map.get(k)`: the value stored under `k`, if any. */
  function Get<V>(m: seq<Entry<V>>, k: string): (r: Option<V>)
    ensures r.Some? <==> k in Keys(m)
    decreases |m|
  {
    if m == [] then None
    else
      KeysCons(m);
      if m[0].key == k then Some(m[0].value) else Get(m[1..], k)
  }

  lemma SortedCons<V>(x: Entry<V>, t: seq<Entry<V>>)
    requires Sorted(t)
    requires forall j :: 0 <= j < |t| ==> Less(x.key, t[j].key)
    ensures Sorted([x] + t)
  {
    var r := [x] + t;
    forall i, j | 0 <= i < j < |r| ensures Less(r[i].key, r[j].key) {
      if i > 0 {
        assert r[i] == t[i - 1] && r[j] == t[j - 1];
      }
    }
  }

  /** In a sorted map the first key is below every key of the rest. */
  lemma HeadBelowRest<V>(m: seq<Entry<V>>, k: string)
    requires Sorted(m) && m != [] && k in Keys(m[1..])
    ensures Less(m[0].key, k)
  {
    var i :| 0 <= i < |m[1..]| && m[1..][i].key == k;
    assert m[i + 1].key == k;
  }

  /** `map.put(k, v)`: afterwards `k` maps to `v`, every other key keeps its value, and the order is kept. */
  function Put<V>(m: seq<Entry<V>>, k: string, v: V): (r: seq<Entry<V>>)
    requires Sorted(m)
    ensures Sorted(r)
    ensures Keys(r) == Keys(m) + {k}
    ensures Get(r, k) == Some(v)
    ensures forall k' :: k' != k ==> Get(r, k') == Get(m, k')
    decreases |m|
  {
    if m == [] then
      PutEmpty(k, v);
      [Entry(k, v)]
    else if m[0].key == k then
      PutReplace(m, k, v);
      [Entry(k, v)] + m[1..]
    else if Less(k, m[0].key) then
      PutFront(m, k, v);
      [Entry(k, v)] + m
    else
      var rest := Put(m[1..], k, v);
      PutLater(m, k, v, rest);
      [m[0]] + rest
  }

  lemma PutEmpty<V>(k: string, v: V)
    ensures Sorted([Entry(k, v)]) && Keys([Entry(k, v)]) == {k}
    ensures Get([Entry(k, v)], k) == Some(v)
    ensures forall k' :: k' != k ==> Get([Entry(k, v)], k') == None
  {
    KeysCons([Entry(k, v)]);
  }

  lemma PutReplace<V>(m: seq<Entry<V>>, k: string, v: V)
    requires Sorted(m) && m != [] && m[0].key == k
    ensures var r := [Entry(k, v)] + m[1..];
      Sorted(r) && Keys(r) == Keys(m) + {k} && Get(r, k) == Some(v) &&
      forall k' :: k' != k ==> Get(r, k') == Get(m, k')
  {
    var r := [Entry(k, v)] + m[1..];
    KeysCons(m);
    KeysCons(r);
    assert r[1..] == m[1..];
    forall i, j | 0 <= i < j < |r| ensures Less(r[i].key, r[j].key) {
      assert r[i].key == m[i].key && r[j].key == m[j].key;
    }
  }

  lemma PutFront<V>(m: seq<Entry<V>>, k: string, v: V)
    requires Sorted(m) && m != [] && Less(k, m[0].key)
    ensures var r := [Entry(k, v)] + m;
      Sorted(r) && Keys(r) == Keys(m) + {k} && Get(r, k) == Some(v) &&
      forall k' :: k' != k ==> Get(r, k') == Get(m, k')
  {
    var r := [Entry(k, v)] + m;
    forall j | 0 <= j < |m| ensures Less(k, m[j].key) {
      if j > 0 {
        LessTransitive(k, m[0].key, m[j].key);
      }
    }
    SortedCons(Entry(k, v), m);
    KeysCons(r);
    assert r[1..] == m;
  }

  lemma PutLater<V>(m: seq<Entry<V>>, k: string, v: V, rest: seq<Entry<V>>)
    requires Sorted(m) && m != [] && m[0].key != k && !Less(k, m[0].key)
    requires Sorted(rest) && Keys(rest) == Keys(m[1..]) + {k} && Get(rest, k) == Some(v)
    requires forall k' :: k' != k ==> Get(rest, k') == Get(m[1..], k')
    ensures var r := [m[0]] + rest;
      Sorted(r) && Keys(r) == Keys(m) + {k} && Get(r, k) == Some(v) &&
      forall k' :: k' != k ==> Get(r, k') == Get(m, k')
  {
    var r := [m[0]] + rest;
    LessTotal(k, m[0].key);
    forall j | 0 <= j < |rest| ensures Less(m[0].key, rest[j].key) {
      assert rest[j].key in Keys(rest);
      if rest[j].key != k {
        HeadBelowRest(m, rest[j].key);
      }
    }
    SortedCons(m[0], rest);
    KeysCons(m);
    KeysCons(r);
    assert r[1..] == rest;
  }
}
