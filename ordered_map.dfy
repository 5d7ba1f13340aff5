/**
 * A PHP array with string keys: an ordered map that remembers the order in
 * which keys were first inserted. Assigning to a present key keeps its place.
 */
module OrderedMap {
  import opened Wrappers

  datatype Entry<V> = Entry(key: string, value: V)

  function Keys<V>(m: seq<Entry<V>>): (ks: seq<string>)
    ensures |ks| == |m|
  {
    if m == [] then [] else [m[0].key] + Keys(m[1..])
  }

  /** `$m[$k] ?? null`. */
  function Get<V>(m: seq<Entry<V>>, k: string): (r: Option<V>)
    ensures r.None? <==> k !in Keys(m)
    ensures r.Some? ==> Entry(k, r.value) in m
  {
    if m == [] then None
    else if m[0].key == k then Some(m[0].value)
    else Get(m[1..], k)
  }

  /** `$m[$k] = $v`. */
  function Put<V>(m: seq<Entry<V>>, k: string, v: V): (r: seq<Entry<V>>)
    ensures Get(r, k) == Some(v)
    ensures forall k' :: k' != k ==> Get(r, k') == Get(m, k')
  {
    if m == [] then [Entry(k, v)]
    else if m[0].key == k then
      var r := [Entry(k, v)] + m[1..];
      assert r[1..] == m[1..];
      r
    else
      var r := [m[0]] + Put(m[1..], k, v);
      assert r[1..] == Put(m[1..], k, v);
      r
  }

  /** A present key keeps its place; a new key goes last. */
  lemma {:induction false} PutKeys<V>(m: seq<Entry<V>>, k: string, v: V)
    ensures k in Keys(m) ==> Keys(Put(m, k, v)) == Keys(m)
    ensures k !in Keys(m) ==> Keys(Put(m, k, v)) == Keys(m) + [k]
  {
    if m != [] {
      PutKeys(m[1..], k, v);
      if m[0].key == k {
        assert Put(m, k, v)[1..] == m[1..];
      } else {
        assert Put(m, k, v)[1..] == Put(m[1..], k, v);
        assert k in Keys(m) <==> k in Keys(m[1..]);
      }
    }
  }

  /** Assigning a key the array does not hold appends one entry at the end. */
  lemma {:induction false} PutAbsent<V>(m: seq<Entry<V>>, k: string, v: V)
    requires k !in Keys(m)
    ensures Put(m, k, v) == m + [Entry(k, v)]
  {
    if m != [] {
      var rest := Keys(m[1..]);
      assert Keys(m) == [m[0].key] + rest;
      assert m[0].key != k && k !in rest;
      PutAbsent(m[1..], k, v);
      assert Put(m, k, v) == [m[0]] + Put(m[1..], k, v);
      assert m == [m[0]] + m[1..];
      assert [m[0]] + (m[1..] + [Entry(k, v)]) == ([m[0]] + m[1..]) + [Entry(k, v)];
    }
  }

  /** `reset($m)`: the value of the first key inserted, or nothing for an empty array. */
  function First<V>(m: seq<Entry<V>>): (r: Option<V>)
    ensures r.None? <==> m == []
    ensures r.Some? ==> Get(m, m[0].key) == r
  {
    if m == [] then None else Some(m[0].value)
  }
}
