/** `Array.prototype.sort` with a comparator, as the book list uses it. The comparator compares
    collation keys: each value is mapped to a sequence of integers (its key under the collation)
    and keys are compared lexicographically. Every comparator of that kind is a total preorder,
    which is what the sort needs. The sort is stable, as ECMAScript requires since 2019. */
module Sorting {
  import opened Seqs

  /** Lexicographic order on collation keys: `localeCompare(a, b) <= 0`. */
  predicate KeyLe(a: seq<int>, b: seq<int>)
    decreases |a|
  {
    a == [] || (b != [] && (a[0] < b[0] || (a[0] == b[0] && KeyLe(a[1..], b[1..]))))
  }

  lemma {:induction false} KeyLeReflexive(a: seq<int>)
    ensures KeyLe(a, a)
  {
    if a != [] { KeyLeReflexive(a[1..]); }
  }

  lemma {:induction false} KeyLeTotal(a: seq<int>, b: seq<int>)
    ensures KeyLe(a, b) || KeyLe(b, a)
  {
    if a != [] && b != [] && a[0] == b[0] { KeyLeTotal(a[1..], b[1..]); }
  }

  lemma {:induction false} KeyLeTransitive(a: seq<int>, b: seq<int>, c: seq<int>)
    requires KeyLe(a, b) && KeyLe(b, c)
    ensures KeyLe(a, c)
  {
    if a != [] && b != [] && c != [] && a[0] == b[0] == c[0] { KeyLeTransitive(a[1..], b[1..], c[1..]); }
  }

  lemma {:induction false} KeyLeAntisymmetric(a: seq<int>, b: seq<int>)
    requires KeyLe(a, b) && KeyLe(b, a)
    ensures a == b
  {
    if a != [] && b != [] { KeyLeAntisymmetric(a[1..], b[1..]); }
  }

  /** Every element's key is at most the key of every later element. */
  predicate SortedBy<T>(s: seq<T>, rank: T -> seq<int>) {
    forall i, j :: 0 <= i < j < |s| ==> KeyLe(rank(s[i]), rank(s[j]))
  }

  /** Every element's key is at least the key of every later element. */
  predicate SortedDescendingBy<T>(s: seq<T>, rank: T -> seq<int>) {
    forall i, j :: 0 <= i < j < |s| ==> KeyLe(rank(s[j]), rank(s[i]))
  }

  /** The elements whose key is `k`. */
  function WithKey<T>(rank: T -> seq<int>, k: seq<int>): T -> bool {
    y => rank(y) == k
  }

  /** Puts `x` in front of the first element whose key is not below its own. */
  function Insert<T(==)>(x: T, s: seq<T>, rank: T -> seq<int>): (r: seq<T>)
    ensures multiset(r) == multiset(s) + multiset{x}
  {
    if s == [] then [x]
    else if KeyLe(rank(x), rank(s[0])) then [x] + s
    else
      assert s == [s[0]] + s[1..];
      [s[0]] + Insert(x, s[1..], rank)
  }

  /** The stable sort of `s` by key: a permutation of `s` (this contract) that is sorted
      (SortBySorted) and keeps elements with equal keys in their original order (SortByStable). */
  function SortBy<T(==)>(s: seq<T>, rank: T -> seq<int>): (r: seq<T>)
    ensures multiset(r) == multiset(s)
    ensures |r| == |s|
  {
    if s == [] then []
    else
      assert s == [s[0]] + s[1..];
      Insert(s[0], SortBy(s[1..], rank), rank)
  }

  lemma {:induction false} InsertSorted<T>(x: T, s: seq<T>, rank: T -> seq<int>)
    requires SortedBy(s, rank)
    ensures SortedBy(Insert(x, s, rank), rank)
  {
    if s == [] {
    } else if KeyLe(rank(x), rank(s[0])) {
      var r := [x] + s;
      forall i, j | 0 <= i < j < |r| ensures KeyLe(rank(r[i]), rank(r[j])) {
        if i == 0 {
          if j > 1 { KeyLeTransitive(rank(x), rank(s[0]), rank(s[j - 1])); }
        } else {
          assert r[i] == s[i - 1] && r[j] == s[j - 1];
        }
      }
    } else {
      var t := s[1..];
      assert SortedBy(t, rank) by {
        forall i, j | 0 <= i < j < |t| ensures KeyLe(rank(t[i]), rank(t[j])) { assert t[i] == s[i + 1] && t[j] == s[j + 1]; }
      }
      InsertSorted(x, t, rank);
      var ins := Insert(x, t, rank);
      var r := [s[0]] + ins;
      KeyLeTotal(rank(x), rank(s[0]));
      forall i, j | 0 <= i < j < |r| ensures KeyLe(rank(r[i]), rank(r[j])) {
        if i == 0 {
          var y := r[j];
          assert y in multiset(ins);
          assert y == x || y in multiset(t);
          if y != x {
            var m :| 0 <= m < |t| && t[m] == y;
            assert s[m + 1] == y;
          }
        } else {
          assert r[i] == ins[i - 1] && r[j] == ins[j - 1];
        }
      }
    }
  }

  lemma {:induction false} SortBySorted<T>(s: seq<T>, rank: T -> seq<int>)
    ensures SortedBy(SortBy(s, rank), rank)
  {
    if s != [] {
      SortBySorted(s[1..], rank);
      InsertSorted(s[0], SortBy(s[1..], rank), rank);
    }
  }

  /** Inserting `x` into a sorted sequence puts it in front of the other elements with its key. */
  lemma {:induction false} InsertAmongEqualKeys<T>(x: T, s: seq<T>, rank: T -> seq<int>, k: seq<int>)
    requires SortedBy(s, rank)
    ensures Filter(Insert(x, s, rank), WithKey(rank, k)) ==
      if rank(x) == k then [x] + Filter(s, WithKey(rank, k)) else Filter(s, WithKey(rank, k))
  {
    var P := WithKey(rank, k);
    if s == [] {
      assert Filter([x], P) == (if P(x) then [x] else []) + Filter([x][1..], P);
    } else if KeyLe(rank(x), rank(s[0])) {
      var r := [x] + s;
      assert r[0] == x && r[1..] == s;
    } else {
      var t := s[1..];
      assert SortedBy(t, rank) by {
        forall i, j | 0 <= i < j < |t| ensures KeyLe(rank(t[i]), rank(t[j])) { assert t[i] == s[i + 1] && t[j] == s[j + 1]; }
      }
      InsertAmongEqualKeys(x, t, rank, k);
      var r := [s[0]] + Insert(x, t, rank);
      assert r[0] == s[0] && r[1..] == Insert(x, t, rank);
      if rank(x) == k {
        KeyLeReflexive(k);
        assert !P(s[0]);
      }
    }
  }

  /** Elements with equal keys keep their relative order. */
  lemma {:induction false} SortByStable<T>(s: seq<T>, rank: T -> seq<int>, k: seq<int>)
    ensures Filter(SortBy(s, rank), WithKey(rank, k)) == Filter(s, WithKey(rank, k))
  {
    if s != [] {
      SortByStable(s[1..], rank, k);
      SortBySorted(s[1..], rank);
      InsertAmongEqualKeys(s[0], SortBy(s[1..], rank), rank, k);
    }
  }

  /** Reversing an ascending sequence gives a descending one. */
  lemma ReverseSortedDescending<T>(s: seq<T>, rank: T -> seq<int>)
    requires SortedBy(s, rank)
    ensures SortedDescendingBy(Reverse(s), rank)
  {
    var r := Reverse(s);
    forall i, j | 0 <= i < j < |r| ensures KeyLe(rank(r[j]), rank(r[i])) {
      assert r[i] == s[|s| - 1 - i] && r[j] == s[|s| - 1 - j];
    }
  }

  /** Two elements whose keys are out of order swap places. */
  lemma SortTwoOutOfOrder<T>(x: T, y: T, rank: T -> seq<int>)
    requires !KeyLe(rank(x), rank(y))
    ensures SortBy([x, y], rank) == [y, x]
  {
    assert [x, y][1..] == [y];
    assert SortBy([y], rank) == [y];
    assert Insert(x, [y], rank) == [y] + Insert(x, [], rank);
  }
}
