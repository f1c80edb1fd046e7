/**
 * The relational operations the handlers' SQL statements are built from, over a table
 * held as a sequence of rows in storage order: selection (`WHERE`), a per-row
 * rewrite (`UPDATE ... SET`), sorting (`ORDER BY`) and uniqueness of a key.
 */
module Seqs {

  /** The rows of `s` that satisfy `f`, in storage order (`SELECT ... WHERE f`). */
  function Filter<T(!new)>(s: seq<T>, f: T -> bool): (r: seq<T>)
    ensures |r| <= |s|
    ensures forall x :: x in r <==> x in s && f(x)
    decreases |s|
  {
    if s == [] then []
    else
      var init, last := s[..|s| - 1], s[|s| - 1];
      assert s == init + [last];
      Filter(init, f) + (if f(last) then [last] else [])
  }

  /** Every row rewritten by `g` (`UPDATE ... SET`), order and count unchanged. */
  function MapSeq<T, U>(s: seq<T>, g: T -> U): (r: seq<U>)
    ensures |r| == |s|
    ensures forall i :: 0 <= i < |s| ==> r[i] == g(s[i])
  {
    seq(|s|, i requires 0 <= i < |s| => g(s[i]))
  }

  /** No two rows of `s` share a `key`. */
  ghost predicate DistinctBy<T, K>(s: seq<T>, key: T -> K)
  {
    forall i, j :: 0 <= i < j < |s| ==> key(s[i]) != key(s[j])
  }

  /** `key` is non-decreasing along `s`. */
  ghost predicate SortedBy<T>(s: seq<T>, key: T -> int)
  {
    forall i, j :: 0 <= i < j < |s| ==> key(s[i]) <= key(s[j])
  }

  /** A selection that every row passes returns the table as it is. */
  lemma {:induction false} FilterKeepsAll<T(!new)>(s: seq<T>, f: T -> bool)
    requires forall x :: x in s ==> f(x)
    ensures Filter(s, f) == s
    decreases |s|
  {
    if s != [] {
      var init := s[..|s| - 1];
      assert s == init + [s[|s| - 1]];
      FilterKeepsAll(init, f);
    }
  }

  /** A selection that no row passes returns nothing. */
  lemma {:induction false} FilterKeepsNone<T(!new)>(s: seq<T>, f: T -> bool)
    requires forall x :: x in s ==> !f(x)
    ensures Filter(s, f) == []
    decreases |s|
  {
    if s != [] {
      var init := s[..|s| - 1];
      assert s == init + [s[|s| - 1]];
      FilterKeepsNone(init, f);
    }
  }

  /** Appending a row whose key is new keeps the key unique. */
  lemma DistinctByAppend<T, K>(s: seq<T>, x: T, key: T -> K)
    requires DistinctBy(s, key)
    requires forall i :: 0 <= i < |s| ==> key(s[i]) != key(x)
    ensures DistinctBy(s + [x], key)
  {
    var t := s + [x];
    forall i, j | 0 <= i < j < |t| ensures key(t[i]) != key(t[j]) {
      assert t[i] == s[i];
      if j < |s| {
        assert t[j] == s[j];
      }
    }
  }

  /**
   * A selection that drops exactly the rows with key `k`, in a table where the key is
   * unique and such a row exists, returns one row less.
   */
  lemma {:induction false} FilterDropsOne<T(!new), K>(s: seq<T>, f: T -> bool, key: T -> K, k: K)
    requires DistinctBy(s, key)
    requires forall x :: x in s && !f(x) ==> key(x) == k
    requires exists x :: x in s && !f(x)
    ensures |Filter(s, f)| == |s| - 1
    decreases |s|
  {
    var init, last := s[..|s| - 1], s[|s| - 1];
    assert s == init + [last];
    assert DistinctBy(init, key) by {
      forall i, j | 0 <= i < j < |init| ensures key(init[i]) != key(init[j]) {
        assert init[i] == s[i] && init[j] == s[j];
      }
    }
    if !f(last) {
      forall x | x in init ensures f(x) {
        var i :| 0 <= i < |init| && init[i] == x;
        assert key(s[i]) != key(s[|s| - 1]);
      }
      FilterKeepsAll(init, f);
    } else {
      var x :| x in s && !f(x);
      assert x in init;
      FilterDropsOne(init, f, key, k);
    }
  }

  /** Selection distributes over concatenation. */
  lemma {:induction false} FilterAppend<T(!new)>(a: seq<T>, b: seq<T>, f: T -> bool)
    ensures Filter(a + b, f) == Filter(a, f) + Filter(b, f)
    decreases |b|
  {
    if b == [] {
      assert a + b == a;
    } else {
      var init, last := b[..|b| - 1], b[|b| - 1];
      assert b == init + [last];
      assert a + b == (a + init) + [last];
      FilterAppend(a, init, f);
    }
  }

  /** Two selections may be applied in either order. */
  lemma {:induction false} FilterCommutes<T(!new)>(s: seq<T>, f: T -> bool, g: T -> bool)
    ensures Filter(Filter(s, f), g) == Filter(Filter(s, g), f)
    decreases |s|
  {
    if s != [] {
      var init, last := s[..|s| - 1], s[|s| - 1];
      assert s == init + [last];
      FilterCommutes(init, f, g);
      FilterAppend(Filter(init, f), if f(last) then [last] else [], g);
      FilterAppend(Filter(init, g), if g(last) then [last] else [], f);
      assert Filter([last], g) == (if g(last) then [last] else []) by {
        assert [last][..0] == [];
      }
      assert Filter([last], f) == (if f(last) then [last] else []) by {
        assert [last][..0] == [];
      }
    }
  }

  /** A rewrite that never changes whether a row is selected commutes with the selection. */
  lemma {:induction false} FilterMapCommutes<T(!new)>(s: seq<T>, f: T -> bool, g: T -> T)
    requires forall x :: f(g(x)) == f(x)
    ensures Filter(MapSeq(s, g), f) == MapSeq(Filter(s, f), g)
    decreases |s|
  {
    if s != [] {
      var init, last := s[..|s| - 1], s[|s| - 1];
      assert s == init + [last];
      FilterMapCommutes(init, f, g);
      var m := MapSeq(s, g);
      assert m[..|m| - 1] == MapSeq(init, g);
      assert m[|m| - 1] == g(last);
      var tail := if f(last) then [last] else [];
      assert MapSeq(Filter(init, f) + tail, g) == MapSeq(Filter(init, f), g) + MapSeq(tail, g);
    }
  }

  /** Selection keeps a key unique. */
  lemma {:induction false} FilterKeepsDistinct<T(!new), K>(s: seq<T>, f: T -> bool, key: T -> K)
    requires DistinctBy(s, key)
    ensures DistinctBy(Filter(s, f), key)
    decreases |s|
  {
    if s != [] {
      var init, last := s[..|s| - 1], s[|s| - 1];
      assert s == init + [last];
      FilterKeepsDistinct(init, f, key);
      var r := Filter(init, f);
      forall y | y in r
        ensures key(y) != key(last)
      {
        var i :| 0 <= i < |init| && init[i] == y;
        assert s[i] == y;
      }
      var t := r + (if f(last) then [last] else []);
      forall i, j | 0 <= i < j < |t|
        ensures key(t[i]) != key(t[j])
      {
        if j == |r| {
          assert t[i] == r[i] && r[i] in r;
        }
      }
    }
  }

  /** Inserts `x` into a sequence sorted by `key`, before the first row with a key not below it. */
  function InsertBy<T>(x: T, s: seq<T>, key: T -> int): (r: seq<T>)
    ensures multiset(r) == multiset(s) + multiset{x}
    decreases |s|
  {
    if s == [] then [x]
    else if key(x) <= key(s[0]) then [x] + s
    else
      assert s == [s[0]] + s[1..];
      [s[0]] + InsertBy(x, s[1..], key)
  }

  /** Insertion into a sorted sequence keeps it sorted. */
  lemma {:induction false} InsertByKeepsSorted<T>(x: T, s: seq<T>, key: T -> int)
    requires SortedBy(s, key)
    ensures SortedBy(InsertBy(x, s, key), key)
    decreases |s|
  {
    if s != [] && key(x) > key(s[0]) {
      var tail := s[1..];
      InsertByKeepsSorted(x, tail, key);
      var rest := InsertBy(x, tail, key);
      var r := [s[0]] + rest;
      forall j | 0 <= j < |rest| ensures key(s[0]) <= key(rest[j]) {
        assert rest[j] in multiset(rest);
        if rest[j] != x {
          assert rest[j] in multiset(tail);
          var k :| 0 <= k < |tail| && tail[k] == rest[j];
          assert s[k + 1] == rest[j];
        }
      }
      forall i, j | 0 <= i < j < |r| ensures key(r[i]) <= key(r[j]) {
        if i == 0 {
          assert r[j] == rest[j - 1];
        } else {
          assert r[i] == rest[i - 1] && r[j] == rest[j - 1];
        }
      }
    }
  }

  /** Inserting a row whose key is new keeps the key unique. */
  lemma {:induction false} InsertByKeepsDistinct<T(!new)>(x: T, s: seq<T>, key: T -> int)
    requires DistinctBy(s, key)
    requires forall y :: y in s ==> key(y) != key(x)
    ensures DistinctBy(InsertBy(x, s, key), key)
    decreases |s|
  {
    if s == [] {
    } else if key(x) <= key(s[0]) {
      var r := [x] + s;
      forall i, j | 0 <= i < j < |r| ensures key(r[i]) != key(r[j]) {
        assert r[j] == s[j - 1] && r[j] in s;
        if i > 0 {
          assert r[i] == s[i - 1];
        }
      }
    } else {
      var tail := s[1..];
      assert DistinctBy(tail, key) by {
        forall i, j | 0 <= i < j < |tail| ensures key(tail[i]) != key(tail[j]) {
          assert tail[i] == s[i + 1] && tail[j] == s[j + 1];
        }
      }
      InsertByKeepsDistinct(x, tail, key);
      var rest := InsertBy(x, tail, key);
      var r := [s[0]] + rest;
      forall j | 0 <= j < |rest| ensures key(s[0]) != key(rest[j]) {
        assert rest[j] in multiset(rest);
        if rest[j] != x {
          assert rest[j] in multiset(tail);
          var k :| 0 <= k < |tail| && tail[k] == rest[j];
          assert s[k + 1] == rest[j];
        }
      }
      forall i, j | 0 <= i < j < |r| ensures key(r[i]) != key(r[j]) {
        if i == 0 {
          assert r[j] == rest[j - 1];
        } else {
          assert r[i] == rest[i - 1] && r[j] == rest[j - 1];
        }
      }
    }
  }


  /** `ORDER BY key ASC`: a permutation of `s` sorted by `key` (insertion sort). */
  function SortBy<T(!new)>(s: seq<T>, key: T -> int): (r: seq<T>)
    ensures SortedBy(r, key)
    ensures multiset(r) == multiset(s)
    ensures forall y :: y in r <==> y in s
    decreases |s|
  {
    if s == [] then []
    else
      assert s == [s[0]] + s[1..];
      assert forall y :: y in s <==> y in multiset(s);
      var sorted := SortBy(s[1..], key);
      InsertByKeepsSorted(s[0], sorted, key);
      InsertBy(s[0], sorted, key)
  }

  /** Sorting keeps a key unique, so a sort on a unique key is strictly increasing. */
  lemma {:induction false} SortByKeepsDistinct<T(!new)>(s: seq<T>, key: T -> int)
    requires DistinctBy(s, key)
    ensures DistinctBy(SortBy(s, key), key)
    decreases |s|
  {
    if s != [] {
      assert s == [s[0]] + s[1..];
      SortByKeepsDistinct(s[1..], key);
      var sorted := SortBy(s[1..], key);
      forall y | y in sorted ensures key(y) != key(s[0]) {
        var i :| 0 <= i < |s[1..]| && s[1..][i] == y;
        assert s[i + 1] == y;
      }
      InsertByKeepsDistinct(s[0], sorted, key);
    }
  }
}
