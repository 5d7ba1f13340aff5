/**
 * `ORDER BY a ASC, b ASC` over TEXT columns: a stable insertion sort on a
 * key of two strings. SQLite leaves the order of ties open; the model keeps
 * ties in table order, and its contracts promise only what SQL promises.
 */
module Sorting {
  import opened Wrappers
  import opened Strings

  type Key = (string, string)

  /** The order `ORDER BY first, second` imposes on two rows. */
  predicate KeyLe(a: Key, b: Key) {
    Less(a.0, b.0) || (a.0 == b.0 && LessEq(a.1, b.1))
  }

  lemma KeyLeTotal(a: Key, b: Key)
    ensures KeyLe(a, b) || KeyLe(b, a)
  {
    LessTotal(a.0, b.0);
    LessTotal(a.1, b.1);
  }

  lemma KeyLeTransitive(a: Key, b: Key, c: Key)
    requires KeyLe(a, b) && KeyLe(b, c)
    ensures KeyLe(a, c)
  {
    if Less(a.0, b.0) && Less(b.0, c.0) {
      LessTransitive(a.0, b.0, c.0);
    }
    if a.1 != b.1 && b.1 != c.1 && Less(a.1, b.1) && Less(b.1, c.1) {
      LessTransitive(a.1, b.1, c.1);
    }
  }

  predicate SortedBy<T>(s: seq<T>, key: T -> Key) {
    forall i, j :: 0 <= i < j < |s| ==> KeyLe(key(s[i]), key(s[j]))
  }

  /** Places `x` in the sorted `s`, after every element with a key not above its own. */
  function Insert<T>(x: T, s: seq<T>, key: T -> Key): (r: seq<T>)
    requires SortedBy(s, key)
    ensures SortedBy(r, key)
    ensures multiset(r) == multiset(s) + multiset{x}
    ensures |r| == |s| + 1
  {
    if s == [] then [x]
    else if KeyLe(key(x), key(s[0])) && key(x) != key(s[0]) then
      forall j | 0 <= j < |s| ensures KeyLe(key(x), key(s[j])) {
        if j > 0 { KeyLeTransitive(key(x), key(s[0]), key(s[j])); }
      }
      [x] + s
    else
      var rest := Insert(x, s[1..], key);
      assert s == [s[0]] + s[1..];
      KeyLeTotal(key(x), key(s[0]));
      forall k | 0 <= k < |rest| ensures KeyLe(key(s[0]), key(rest[k])) {
        assert rest[k] in multiset(rest);
        if rest[k] != x {
          assert rest[k] in multiset(s[1..]);
          var j :| 0 <= j < |s[1..]| && s[1..][j] == rest[k];
          assert s[j + 1] == rest[k];
        }
      }
      [s[0]] + rest
  }

  /** The rows of `s` in key order: a permutation of `s` that is sorted. */
  function SortBy<T>(s: seq<T>, key: T -> Key): (r: seq<T>)
    ensures SortedBy(r, key)
    ensures multiset(r) == multiset(s)
    ensures |r| == |s|
  {
    if s == [] then []
    else
      assert s == s[..|s| - 1] + [s[|s| - 1]];
      Insert(s[|s| - 1], SortBy(s[..|s| - 1], key), key)
  }

  /** The rows of `s` that satisfy `p`, in table order (a SQL `WHERE`). */
  function Where<T(!new)>(s: seq<T>, p: T -> bool): (r: seq<T>)
    ensures |r| <= |s|
    ensures forall x :: x in r <==> x in s && p(x)
    ensures forall i :: 0 <= i < |r| ==> p(r[i])
  {
    if s == [] then []
    else if p(s[0]) then [s[0]] + Where(s[1..], p)
    else Where(s[1..], p)
  }

  /** The first row of `s` that satisfies `p`, in table order (a `WHERE ... LIMIT 1`), or none. */
  function FirstWhere<T(!new)>(s: seq<T>, p: T -> bool): (r: Option<T>)
    ensures r.Some? ==> r.value in s && p(r.value)
    ensures r.None? <==> forall x :: x in s ==> !p(x)
    ensures r == if Where(s, p) == [] then None else Some(Where(s, p)[0])
  {
    if s == [] then None
    else if p(s[0]) then Some(s[0])
    else FirstWhere(s[1..], p)
  }

  /** A weaker filter keeps at least as many rows: the basis of every count comparison. */
  lemma {:induction false} WhereMonotone<T(!new)>(s: seq<T>, p: T -> bool, q: T -> bool)
    requires forall x :: p(x) ==> q(x)
    ensures |Where(s, p)| <= |Where(s, q)|
  {
    if s != [] {
      WhereMonotone(s[1..], p, q);
    }
  }

  /** Filtering keeps the multiplicity of every kept row. */
  lemma {:induction false} WhereMultiset<T(!new)>(s: seq<T>, p: T -> bool, x: T)
    ensures multiset(Where(s, p))[x] == if p(x) then multiset(s)[x] else 0
  {
    if s != [] {
      WhereMultiset(s[1..], p, x);
      assert s == [s[0]] + s[1..];
    }
  }

  /** Filtering keeps the survivors in their order, so a relation every earlier row bears to every later one survives. */
  lemma {:induction false} WhereKeepsPairwise<T(!new)>(s: seq<T>, p: T -> bool, rel: (T, T) -> bool)
    requires forall i, j :: 0 <= i < j < |s| ==> rel(s[i], s[j])
    ensures forall i, j :: 0 <= i < j < |Where(s, p)| ==> rel(Where(s, p)[i], Where(s, p)[j])
  {
    if s != [] {
      WhereKeepsPairwise(s[1..], p, rel);
      var rest := Where(s[1..], p);
      if p(s[0]) {
        var r := [s[0]] + rest;
        assert r == Where(s, p);
        forall i, j | 0 <= i < j < |r| ensures rel(r[i], r[j]) {
          if i == 0 {
            assert r[j] in s[1..];
            var k :| 0 <= k < |s[1..]| && s[1..][k] == r[j];
            assert s[k + 1] == r[j];
          } else {
            assert r[i] == rest[i - 1] && r[j] == rest[j - 1];
          }
        }
      }
    }
  }

  /** A sequence without repeats has as many distinct elements as positions. */
  lemma {:induction false} DistinctCardinality<T>(s: seq<T>)
    requires forall i, j :: 0 <= i < j < |s| ==> s[i] != s[j]
    ensures |set x | x in s| == |s|
  {
    if s != [] {
      var t := s[1..];
      DistinctCardinality(t);
      assert (set x | x in s) == {s[0]} + (set x | x in t);
    }
  }

  /** On rows without repeats, a `COUNT(*) ... WHERE` is the number of distinct rows satisfying the condition. */
  lemma {:induction false} WhereCount<T(!new)>(s: seq<T>, p: T -> bool, matching: set<T>)
    requires forall i, j :: 0 <= i < j < |s| ==> s[i] != s[j]
    requires forall x :: x in matching <==> x in s && p(x)
    ensures |Where(s, p)| == |matching|
  {
    WhereKeepsPairwise(s, p, (a: T, b: T) => a != b);
    DistinctCardinality(Where(s, p));
    assert (set x | x in Where(s, p)) == matching;
  }
}
