/**
 * Sequence operations shared by the store and the state cache: the
 * order-preserving filters behind every `WHERE` clause and `Array.filter`,
 * the first-match lookup behind `Array.find` and `LIMIT 1` reads, and the
 * stable sort behind `Array.sort` with a numeric key.
 *
 * Every selector is passed as a named function value, never as a lambda,
 * so that a specification and the code it describes mention the same term.
 */
module Seqs {
  import opened Types

  /** No two elements of `s` share a key: the meaning of a primary key or a
      UNIQUE column. */
  ghost predicate UniqueBy<X, K>(s: seq<X>, key: X -> K) {
    forall i, j :: 0 <= i < j < |s| ==> key(s[i]) != key(s[j])
  }

  /** The elements whose `field` equals `v`, in their original order. */
  function Where<X(!new), K(==)>(s: seq<X>, field: X -> K, v: K): (r: seq<X>)
    ensures |r| <= |s|
    ensures forall x :: x in r <==> x in s && field(x) == v
    ensures forall x :: multiset(r)[x] == if field(x) == v then multiset(s)[x] else 0
  {
    if s == [] then []
    else
      assert s == [s[0]] + s[1..];
      if field(s[0]) == v then [s[0]] + Where(s[1..], field, v)
      else Where(s[1..], field, v)
  }

  /** The elements whose `field` differs from `v`, in their original order:
      what `DELETE ... WHERE field = v` leaves behind. */
  function Except<X(!new), K(==)>(s: seq<X>, field: X -> K, v: K): (r: seq<X>)
    ensures |r| <= |s|
    ensures forall x :: x in r <==> x in s && field(x) != v
  {
    if s == [] then []
    else
      assert s == [s[0]] + s[1..];
      if field(s[0]) != v then [s[0]] + Except(s[1..], field, v)
      else Except(s[1..], field, v)
  }

  /** A delete removes every copy of a matching row and keeps every copy of
      the others. */
  lemma {:induction false} ExceptMultiset<X(!new), K>(s: seq<X>, field: X -> K, v: K)
    ensures forall x :: multiset(Except(s, field, v))[x] == if field(x) != v then multiset(s)[x] else 0
  {
    if s != [] {
      assert s == [s[0]] + s[1..];
      ExceptMultiset(s[1..], field, v);
    }
  }

  /** The first element whose `field` equals `v`, if any. */
  function Find<X(==), K(==)>(s: seq<X>, field: X -> K, v: K): (r: Option<X>)
    ensures r.Some? <==> exists i :: 0 <= i < |s| && field(s[i]) == v
    ensures r.Some? ==> field(r.value) == v && r.value in s
    ensures r.Some? ==> exists i :: 0 <= i < |s| && s[i] == r.value &&
                                     forall j :: 0 <= j < i ==> field(s[j]) != v
  {
    if s == [] then None
    else if field(s[0]) == v then Some(s[0])
    else
      var r := Find(s[1..], field, v);
      assert forall i :: 1 <= i < |s| ==> s[i] == s[1..][i - 1];
      if r.Some? then
        var i :| 0 <= i < |s[1..]| && s[1..][i] == r.value &&
                 forall j :: 0 <= j < i ==> field(s[1..][j]) != v;
        assert s[i + 1] == r.value && forall j :: 0 <= j < i + 1 ==> field(s[j]) != v;
        r
      else r
  }

  /** Under a unique key, the lookup finds the one element holding it. */
  lemma {:induction false} FindUnique<X, K>(s: seq<X>, key: X -> K, x: X)
    requires UniqueBy(s, key) && x in s
    ensures Find(s, key, key(x)) == Some(x)
  {
    var r := Find(s, key, key(x));
    var i :| 0 <= i < |s| && s[i] == r.value && forall j :: 0 <= j < i ==> key(s[j]) != key(x);
    var k :| 0 <= k < |s| && s[k] == x;
    if k < i {
      assert key(s[k]) != key(x);
    } else if i < k {
      assert key(s[i]) != key(s[k]);
    }
  }

  /** A filter distributes over concatenation: it keeps relative order. */
  lemma {:induction false} WhereAppend<X(!new), K>(s: seq<X>, t: seq<X>, field: X -> K, v: K)
    ensures Where(s + t, field, v) == Where(s, field, v) + Where(t, field, v)
  {
    if s == [] {
      assert s + t == t;
    } else {
      var u := s + t;
      assert u[0] == s[0] && u[1..] == s[1..] + t;
      WhereAppend(s[1..], t, field, v);
      if field(s[0]) == v {
        calc {
          Where(u, field, v);
          [s[0]] + Where(s[1..] + t, field, v);
          [s[0]] + (Where(s[1..], field, v) + Where(t, field, v));
          ([s[0]] + Where(s[1..], field, v)) + Where(t, field, v);
        }
      }
    }
  }

  /** Removing rows never breaks a key that held before. */
  lemma {:induction false} ExceptKeepsUnique<X(!new), K, V>(s: seq<X>, field: X -> V, v: V, key: X -> K)
    requires UniqueBy(s, key)
    ensures UniqueBy(Except(s, field, v), key)
  {
    if s != [] {
      ExceptKeepsUnique(s[1..], field, v, key);
      if field(s[0]) != v {
        var rest := Except(s[1..], field, v);
        var r := [s[0]] + rest;
        forall i, j | 0 <= i < j < |r| ensures key(r[i]) != key(r[j]) {
          if i == 0 {
            assert r[j] == rest[j - 1] && r[j] in rest;
            var k :| 0 <= k < |s[1..]| && s[1..][k] == r[j];
            assert s[k + 1] == r[j];
          }
        }
      }
    }
  }

  /** Appending an element whose key is new keeps the key unique. */
  lemma AppendKeepsUnique<X, K>(s: seq<X>, x: X, key: X -> K)
    requires UniqueBy(s, key)
    requires forall y :: y in s ==> key(y) != key(x)
    ensures UniqueBy(s + [x], key)
  {
    var r := s + [x];
    forall i, j | 0 <= i < j < |r| ensures key(r[i]) != key(r[j]) {
      if j == |s| {
        assert r[i] == s[i] && r[i] in s;
      }
    }
  }

  /** A delete that matches nothing leaves the sequence as it was. */
  lemma {:induction false} ExceptNothing<X(!new), K>(s: seq<X>, field: X -> K, v: K)
    requires forall x :: x in s ==> field(x) != v
    ensures Except(s, field, v) == s
  {
    if s != [] {
      assert s == [s[0]] + s[1..];
      ExceptNothing(s[1..], field, v);
    }
  }

  /** A key unique in `s` stays unique in any coarser key's refinement:
      if `fine` determines `coarse`, uniqueness of `coarse` gives it for `fine`. */
  lemma UniqueByRefines<X, K, L>(s: seq<X>, coarse: X -> K, fine: X -> L)
    requires UniqueBy(s, coarse)
    requires forall x, y :: fine(x) == fine(y) ==> coarse(x) == coarse(y)
    ensures UniqueBy(s, fine)
  {
  }

  /** Ascending order of a numeric key. */
  ghost predicate SortedBy<X>(s: seq<X>, key: X -> int) {
    forall i, j :: 0 <= i < j < |s| ==> key(s[i]) <= key(s[j])
  }

  /** Inserts `x` in front of the first element whose key is not below its
      own, so that it precedes the equal keys that follow it. */
  function Insert<X(!new)>(x: X, s: seq<X>, key: X -> int): (r: seq<X>)
    requires SortedBy(s, key)
    ensures SortedBy(r, key)
    ensures multiset(r) == multiset(s) + multiset{x}
    ensures forall y :: y in r <==> y == x || y in s
  {
    if s == [] || key(x) <= key(s[0]) then [x] + s
    else
      assert s == [s[0]] + s[1..];
      var rest := Insert(x, s[1..], key);
      assert forall y :: y in rest ==> key(s[0]) <= key(y);
      [s[0]] + rest
  }

  /** A stable insertion sort, ascending by `key`. */
  function SortBy<X(!new)>(s: seq<X>, key: X -> int): (r: seq<X>)
    ensures SortedBy(r, key)
    ensures multiset(r) == multiset(s)
  {
    if s == [] then []
    else
      assert s == [s[0]] + s[1..];
      Insert(s[0], SortBy(s[1..], key), key)
  }

  /** The first `n` elements, or all of them when there are fewer. */
  function Take<X>(s: seq<X>, n: nat): (r: seq<X>)
    ensures |r| == if |s| < n then |s| else n
    ensures r <= s
  {
    if |s| <= n then s else s[..n]
  }
}
