/**
 * Python's `sorted(xs, key=k, reverse=True)`: a stable sort by descending
 * key. Elements with equal keys keep their original relative order, as the
 * Python documentation promises for `reverse=True` too. Modelled as
 * insertion sort, whose result is the unique list with those properties.
 */
module StableSort {

  /** Keys never increase from left to right. */
  ghost predicate SortedDesc<T>(xs: seq<T>, key: T -> real) {
    forall i, j :: 0 <= i < j < |xs| ==> key(xs[i]) >= key(xs[j])
  }

  /** The elements whose key is `v`, in their order in `xs`. */
  function WithKey<T>(xs: seq<T>, key: T -> real, v: real): seq<T> {
    if xs == [] then []
    else (if key(xs[0]) == v then [xs[0]] else []) + WithKey(xs[1..], key, v)
  }

  /** Insert `x` after every element whose key is at least its own. */
  function Insert<T>(x: T, s: seq<T>, key: T -> real): seq<T> {
    if s == [] then [x]
    else if key(s[0]) >= key(x) then [s[0]] + Insert(x, s[1..], key)
    else [x] + s
  }

  /** `sorted(xs, key=key, reverse=True)`. */
  function SortDesc<T>(xs: seq<T>, key: T -> real): seq<T> {
    if xs == [] then []
    else Insert(xs[|xs| - 1], SortDesc(xs[..|xs| - 1], key), key)
  }

  lemma {:induction false} WithKeyAppend<T>(a: seq<T>, b: seq<T>, key: T -> real, v: real)
    ensures WithKey(a + b, key, v) == WithKey(a, key, v) + WithKey(b, key, v)
  {
    if a == [] {
      assert a + b == b;
    } else {
      var head := if key(a[0]) == v then [a[0]] else [];
      assert WithKey(a + b, key, v) == head + WithKey(a[1..] + b, key, v) by {
        assert (a + b)[0] == a[0] && (a + b)[1..] == a[1..] + b;
      }
      WithKeyAppend(a[1..], b, key, v);
    }
  }

  lemma {:induction false} WithKeyNone<T>(s: seq<T>, key: T -> real, v: real)
    requires forall k :: 0 <= k < |s| ==> key(s[k]) < v
    ensures WithKey(s, key, v) == []
  {
    if s != [] {
      WithKeyNone(s[1..], key, v);
    }
  }

  lemma {:induction false} InsertPermutation<T>(x: T, s: seq<T>, key: T -> real)
    ensures multiset(Insert(x, s, key)) == multiset(s) + multiset{x}
  {
    if s != [] && key(s[0]) >= key(x) {
      InsertPermutation(x, s[1..], key);
      assert s == [s[0]] + s[1..];
    }
  }

  lemma {:induction false} InsertSorted<T>(x: T, s: seq<T>, key: T -> real)
    requires SortedDesc(s, key)
    ensures SortedDesc(Insert(x, s, key), key)
  {
    if s != [] && key(s[0]) >= key(x) {
      var r := Insert(x, s[1..], key);
      InsertSorted(x, s[1..], key);
      InsertPermutation(x, s[1..], key);
      var res := [s[0]] + r;
      forall j | 0 < j < |res| ensures key(res[0]) >= key(res[j]) {
        assert res[j] == r[j - 1];
        assert r[j - 1] in multiset(r);
        if r[j - 1] != x {
          assert r[j - 1] in multiset(s[1..]);
          var k :| 0 <= k < |s[1..]| && s[1..][k] == r[j - 1];
          assert s[k + 1] == r[j - 1];
        }
      }
      forall i, j | 0 < i < j < |res| ensures key(res[i]) >= key(res[j]) {
        assert res[i] == r[i - 1] && res[j] == r[j - 1];
      }
    }
  }

  lemma {:induction false} InsertStable<T>(x: T, s: seq<T>, key: T -> real, v: real)
    requires SortedDesc(s, key)
    ensures WithKey(Insert(x, s, key), key, v) == WithKey(s, key, v) + (if key(x) == v then [x] else [])
  {
    var tail := if key(x) == v then [x] else [];
    if s == [] {
      assert [x][1..] == [];
    } else if key(s[0]) >= key(x) {
      var r := Insert(x, s[1..], key);
      var head := if key(s[0]) == v then [s[0]] else [];
      InsertStable(x, s[1..], key, v);
      assert WithKey(r, key, v) == WithKey(s[1..], key, v) + tail;
      assert ([s[0]] + r)[1..] == r;
      assert WithKey([s[0]] + r, key, v) == head + WithKey(r, key, v);
      assert WithKey(s, key, v) == head + WithKey(s[1..], key, v);
    } else {
      assert ([x] + s)[1..] == s;
      assert WithKey([x] + s, key, v) == tail + WithKey(s, key, v);
      if key(x) == v {
        WithKeyNone(s, key, v);
      }
    }
  }

  /** The result is a permutation of the input. */
  lemma {:induction false} SortDescPermutation<T>(xs: seq<T>, key: T -> real)
    ensures multiset(SortDesc(xs, key)) == multiset(xs)
    ensures |SortDesc(xs, key)| == |xs|
  {
    if xs != [] {
      var init := xs[..|xs| - 1];
      SortDescPermutation(init, key);
      InsertPermutation(xs[|xs| - 1], SortDesc(init, key), key);
      assert xs == init + [xs[|xs| - 1]];
    }
  }

  /** The result is in non-increasing key order. */
  lemma {:induction false} SortDescSorted<T>(xs: seq<T>, key: T -> real)
    ensures SortedDesc(SortDesc(xs, key), key)
  {
    if xs != [] {
      var init := xs[..|xs| - 1];
      SortDescSorted(init, key);
      InsertSorted(xs[|xs| - 1], SortDesc(init, key), key);
    }
  }

  /** The sort is stable: for every key value, the elements with that key
      come out in the order they went in. */
  lemma {:induction false} SortDescStable<T>(xs: seq<T>, key: T -> real, v: real)
    ensures WithKey(SortDesc(xs, key), key, v) == WithKey(xs, key, v)
  {
    if xs != [] {
      var init, last := xs[..|xs| - 1], xs[|xs| - 1];
      var s := SortDesc(init, key);
      var tail := if key(last) == v then [last] else [];
      assert WithKey(SortDesc(xs, key), key, v) == WithKey(s, key, v) + tail by {
        SortDescSorted(init, key);
        InsertStable(last, s, key, v);
      }
      assert WithKey(s, key, v) == WithKey(init, key, v) by {
        SortDescStable(init, key, v);
      }
      assert WithKey(xs, key, v) == WithKey(init, key, v) + tail by {
        assert xs == init + [last];
        WithKeyAppend(init, [last], key, v);
        assert [last][1..] == [];
        assert WithKey([last], key, v) == tail + WithKey([], key, v);
      }
    }
  }

  /** No two elements share their image under `f`. */
  ghost predicate InjectiveOn<T, U>(xs: seq<T>, f: T -> U) {
    forall i, j :: 0 <= i < j < |xs| ==> f(xs[i]) != f(xs[j])
  }

  lemma InsertMember<T>(x: T, s: seq<T>, key: T -> real, y: T)
    requires y in Insert(x, s, key)
    ensures y == x || y in s
  {
    InsertPermutation(x, s, key);
    assert y in multiset(Insert(x, s, key));
  }

  lemma {:induction false} InsertInjective<T, U>(x: T, s: seq<T>, key: T -> real, f: T -> U)
    requires InjectiveOn(s, f)
    requires forall k :: 0 <= k < |s| ==> f(s[k]) != f(x)
    ensures InjectiveOn(Insert(x, s, key), f)
  {
    if s != [] {
      if key(s[0]) >= key(x) {
        var r := Insert(x, s[1..], key);
        InsertInjective(x, s[1..], key, f);
        var res := [s[0]] + r;
        forall i, j | 0 <= i < j < |res| ensures f(res[i]) != f(res[j]) {
          if i == 0 {
            assert res[j] == r[j - 1];
            InsertMember(x, s[1..], key, r[j - 1]);
            if r[j - 1] != x {
              var k :| 0 <= k < |s[1..]| && s[1..][k] == r[j - 1];
              assert s[k + 1] == r[j - 1];
            }
          } else {
            assert res[i] == r[i - 1] && res[j] == r[j - 1];
          }
        }
      } else {
        var res := [x] + s;
        forall i, j | 0 <= i < j < |res| ensures f(res[i]) != f(res[j]) {
          assert res[j] == s[j - 1];
          if i > 0 { assert res[i] == s[i - 1]; }
        }
      }
    }
  }

  /** Sorting keeps distinct images distinct (the sorted words of a dict stay unique). */
  lemma {:induction false} SortDescInjective<T, U>(xs: seq<T>, key: T -> real, f: T -> U)
    requires InjectiveOn(xs, f)
    ensures InjectiveOn(SortDesc(xs, key), f)
  {
    if xs != [] {
      var init, last := xs[..|xs| - 1], xs[|xs| - 1];
      assert InjectiveOn(init, f) by {
        assert forall i :: 0 <= i < |init| ==> init[i] == xs[i];
      }
      SortDescInjective(init, key, f);
      SortDescPermutation(init, key);
      var s := SortDesc(init, key);
      forall k | 0 <= k < |s| ensures f(s[k]) != f(last) {
        assert s[k] in multiset(s);
        assert s[k] in init;
        var m :| 0 <= m < |init| && init[m] == s[k];
        assert xs[m] == s[k];
      }
      InsertInjective(last, s, key, f);
    }
  }

  /** Taking the first `n` of the sorted list selects `n` elements (or all of
      them), in non-increasing key order, and no element left out has a larger
      key than any element selected. */
  lemma SortDescTop<T>(xs: seq<T>, key: T -> real, n: nat)
    ensures |SortDesc(xs, key)| == |xs|
    ensures var top := SortDesc(xs, key)[..if n <= |xs| then n else |xs|];
      && SortedDesc(top, key)
      && (forall y :: y in top ==> y in xs)
      && (forall y :: y in xs && y !in top ==> forall i :: 0 <= i < |top| ==> key(y) <= key(top[i]))
  {
    var s := SortDesc(xs, key);
    SortDescPermutation(xs, key);
    SortDescSorted(xs, key);
    var m := if n <= |xs| then n else |xs|;
    var top := s[..m];
    forall y | y in top ensures y in xs {
      assert y in multiset(s);
    }
    forall y | y in xs && y !in top ensures forall i :: 0 <= i < |top| ==> key(y) <= key(top[i]) {
      assert y in multiset(s);
      var k :| 0 <= k < |s| && s[k] == y;
    }
  }
}
