/** What a sorting algorithm may return when elements are compared by a key, and when it has no choice. */
module Sorting {
  predicate Ascending<T>(xs: seq<T>, key: T -> int) {
    forall i, j {:trigger key(xs[i]), key(xs[j])} | 0 <= i < j < |xs| :: key(xs[i]) <= key(xs[j])
  }

  /** All that `std::sort` promises. */
  predicate SortOf<T(==)>(sorted: seq<T>, xs: seq<T>, key: T -> int) {
    multiset(sorted) == multiset(xs) && Ascending(sorted, key)
  }

  function Insert<T>(x: T, sorted: seq<T>, key: T -> int): (r: seq<T>) {
    if sorted == [] || key(x) <= key(sorted[0]) then [x] + sorted
    else [sorted[0]] + Insert(x, sorted[1..], key)
  }

  lemma ConsAscends<T>(x: T, rest: seq<T>, key: T -> int)
    requires Ascending(rest, key) && forall y | y in rest :: key(x) <= key(y)
    ensures Ascending([x] + rest, key)
  {
    var all := [x] + rest;
    forall i, j | 0 <= i < j < |all|
      ensures key(all[i]) <= key(all[j])
    {
      assert all[j] == rest[j - 1] && rest[j - 1] in rest;
      if i > 0 {
        assert all[i] == rest[i - 1] && key(rest[i - 1]) <= key(rest[j - 1]);
      }
    }
  }

  lemma {:induction false} InsertPermutes<T>(x: T, sorted: seq<T>, key: T -> int)
    ensures multiset(Insert(x, sorted, key)) == multiset([x] + sorted)
  {
    if sorted != [] && key(x) > key(sorted[0]) {
      InsertPermutes(x, sorted[1..], key);
      assert sorted == [sorted[0]] + sorted[1..];
    }
  }

  lemma {:induction false} InsertAscends<T>(x: T, sorted: seq<T>, key: T -> int)
    requires Ascending(sorted, key)
    ensures Ascending(Insert(x, sorted, key), key)
  {
    if sorted == [] || key(x) <= key(sorted[0]) {
      forall y | y in sorted
        ensures key(x) <= key(y)
      {
        FirstIsLeast(sorted, y, key);
      }
      ConsAscends(x, sorted, key);
    } else {
      var rest := Insert(x, sorted[1..], key);
      TailAscends(sorted, key);
      InsertAscends(x, sorted[1..], key);
      InsertPermutes(x, sorted[1..], key);
      forall y | y in rest
        ensures key(sorted[0]) <= key(y)
      {
        assert y in multiset(rest);
        assert y == x || y in sorted[1..];
        if y != x {
          FirstIsLeast(sorted, y, key);
        }
      }
      ConsAscends(sorted[0], rest, key);
    }
  }

  function Sorted<T>(xs: seq<T>, key: T -> int): (r: seq<T>) {
    if xs == [] then [] else Insert(xs[0], Sorted(xs[1..], key), key)
  }

  lemma {:induction false} SortedSorts<T>(xs: seq<T>, key: T -> int)
    ensures SortOf(Sorted(xs, key), xs, key)
  {
    if xs != [] {
      SortedSorts(xs[1..], key);
      InsertAscends(xs[0], Sorted(xs[1..], key), key);
      InsertPermutes(xs[0], Sorted(xs[1..], key), key);
      assert xs == [xs[0]] + xs[1..];
    }
  }

  lemma SameSize<T>(a: seq<T>, b: seq<T>)
    requires multiset(a) == multiset(b)
    ensures |a| == |b|
  {
    assert |multiset(a)| == |a| && |multiset(b)| == |b|;
  }

  /** Different elements have different keys. */
  predicate DistinctKeys<T(==)>(xs: seq<T>, key: T -> int) {
    forall x, y {:trigger key(x), key(y)} | x in xs && y in xs && key(x) == key(y) :: x == y
  }

  lemma FirstIsLeast<T>(a: seq<T>, x: T, key: T -> int)
    requires Ascending(a, key) && x in a
    ensures key(a[0]) <= key(x)
  {
    var i :| 0 <= i < |a| && a[i] == x;
    if i > 0 {
      assert key(a[0]) <= key(a[i]);
    }
  }

  lemma TailAscends<T>(a: seq<T>, key: T -> int)
    requires Ascending(a, key) && a != []
    ensures Ascending(a[1..], key)
    ensures multiset(a[1..]) == multiset(a) - multiset{a[0]}
  {
    assert a == [a[0]] + a[1..];
    forall i, j | 0 <= i < j < |a[1..]|
      ensures key(a[1..][i]) <= key(a[1..][j])
    {
      assert key(a[i + 1]) <= key(a[j + 1]);
    }
  }

  lemma SameFirst<T>(a: seq<T>, b: seq<T>, key: T -> int)
    requires multiset(a) == multiset(b) && Ascending(a, key) && Ascending(b, key) && DistinctKeys(a, key) && a != []
    ensures b != [] && a[0] == b[0]
  {
    SameSize(a, b);
    assert a[0] in multiset(b) && b[0] in multiset(a);
    FirstIsLeast(a, b[0], key);
    FirstIsLeast(b, a[0], key);
  }

  lemma TailIsDistinct<T>(a: seq<T>, key: T -> int)
    requires DistinctKeys(a, key) && a != []
    ensures DistinctKeys(a[1..], key)
  {
    assert forall x | x in a[1..] :: x in a;
  }

  /** With distinct keys every sorting algorithm gives the same order. */
  lemma {:induction false} SortUnique<T>(a: seq<T>, b: seq<T>, key: T -> int)
    requires multiset(a) == multiset(b) && Ascending(a, key) && Ascending(b, key) && DistinctKeys(a, key)
    ensures a == b
  {
    SameSize(a, b);
    if a != [] {
      SameFirst(a, b, key);
      TailAscends(a, key);
      TailAscends(b, key);
      TailIsDistinct(a, key);
      SortUnique(a[1..], b[1..], key);
      assert a == [a[0]] + a[1..] && b == [b[0]] + b[1..];
    }
  }

  function Keys<T>(xs: seq<T>, key: T -> int): seq<int> {
    seq(|xs|, i requires 0 <= i < |xs| => key(xs[i]))
  }

  lemma KeysConcat<T>(a: seq<T>, b: seq<T>, key: T -> int)
    ensures Keys(a + b, key) == Keys(a, key) + Keys(b, key)
  {
  }

  // An element of a permutation, taken out.
  lemma TakenOut<T>(a: seq<T>, b: seq<T>, j: nat)
    requires a != [] && j < |b| && multiset(a) == multiset(b) && b[j] == a[0]
    ensures multiset(a[1..]) == multiset(b[..j] + b[j + 1..])
  {
    assert a == [a[0]] + a[1..];
    assert b == b[..j] + [b[j]] + b[j + 1..];
    assert multiset(a[1..]) == multiset(a) - multiset{a[0]};
    assert multiset(b[..j] + b[j + 1..]) == multiset(b) - multiset{b[j]};
  }

  lemma {:induction false} KeysPermute<T>(a: seq<T>, b: seq<T>, key: T -> int)
    requires multiset(a) == multiset(b)
    ensures multiset(Keys(a, key)) == multiset(Keys(b, key))
  {
    SameSize(a, b);
    if a != [] {
      assert a[0] in multiset(b);
      var j :| 0 <= j < |b| && b[j] == a[0];
      TakenOut(a, b, j);
      KeysPermute(a[1..], b[..j] + b[j + 1..], key);
      KeysConcat(b[..j], b[j + 1..], key);
      assert Keys(a, key) == [key(a[0])] + Keys(a[1..], key);
      assert Keys(b, key) == Keys(b[..j], key) + [key(a[0])] + Keys(b[j + 1..], key);
    }
  }

  /** Whatever the algorithm, the keys come in the same order. */
  lemma SortedKeysUnique<T>(a: seq<T>, b: seq<T>, key: T -> int)
    requires multiset(a) == multiset(b) && Ascending(a, key) && Ascending(b, key)
    ensures |a| == |b| && forall i | 0 <= i < |a| :: key(a[i]) == key(b[i])
  {
    SameSize(a, b);
    KeysPermute(a, b, key);
    SortUnique(Keys(a, key), Keys(b, key), x => x);
    assert forall i | 0 <= i < |a| :: key(a[i]) == Keys(a, key)[i] && key(b[i]) == Keys(b, key)[i];
  }

  lemma SwapEqualKeys<T>(a: seq<T>, i: nat, j: nat, key: T -> int)
    requires i < |a| && j < |a| && key(a[i]) == key(a[j]) && Ascending(a, key)
    ensures SortOf(a[i := a[j]][j := a[i]], a, key)
  {
    var b := a[i := a[j]][j := a[i]];
    forall k, l | 0 <= k < l < |b|
      ensures key(b[k]) <= key(b[l])
    {
      assert key(b[k]) == key(a[k]) && key(b[l]) == key(a[l]);
      assert key(a[k]) <= key(a[l]);
    }
  }

  /** Two elements with one key can be sorted either way. */
  lemma TwoSorts<T>(xs: seq<T>, key: T -> int) returns (a: seq<T>, b: seq<T>)
    requires !DistinctKeys(xs, key)
    ensures SortOf(a, xs, key) && SortOf(b, xs, key) && a != b
  {
    var x, y :| x in xs && y in xs && key(x) == key(y) && x != y;
    a := Sorted(xs, key);
    SortedSorts(xs, key);
    assert x in multiset(a) && y in multiset(a);
    var i :| 0 <= i < |a| && a[i] == x;
    var j :| 0 <= j < |a| && a[j] == y;
    SwapEqualKeys(a, i, j, key);
    b := a[i := y][j := x];
    assert b[i] != a[i];
  }
}
