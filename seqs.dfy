/** The array operations the handlers use on the in-memory collections: `filter` and `reverse`. */
module Seqs {

  /** `s.filter(p)`: the elements of `s` that satisfy `p`, in their original order. */
  function Filter<T(==)>(s: seq<T>, p: T -> bool): (r: seq<T>)
    ensures |r| <= |s|
    ensures forall x :: x in r ==> x in s && p(x)
    ensures forall x :: x in s && p(x) ==> x in r
  {
    if s == [] then []
    else if p(s[0]) then [s[0]] + Filter(s[1..], p)
    else Filter(s[1..], p)
  }

  /** `a` is obtained from `b` by deleting some elements, keeping the others in order. */
  predicate IsSubsequence<T(==)>(a: seq<T>, b: seq<T>)
    decreases |b|
  {
    a == [] ||
    (b != [] && ((a[0] == b[0] && IsSubsequence(a[1..], b[1..])) || IsSubsequence(a, b[1..])))
  }

  lemma {:induction false} FilterIsSubsequence<T>(s: seq<T>, p: T -> bool)
    ensures IsSubsequence(Filter(s, p), s)
  {
    if s != [] {
      FilterIsSubsequence(s[1..], p);
      if p(s[0]) {
        assert Filter(s, p) == [s[0]] + Filter(s[1..], p);
        assert Filter(s, p)[1..] == Filter(s[1..], p);
      }
    }
  }

  /** Filtering keeps every pairwise relation that held between earlier and later elements. */
  lemma {:induction false} FilterKeepsOrder<T>(s: seq<T>, p: T -> bool, R: (T, T) -> bool)
    requires forall i, j :: 0 <= i < j < |s| ==> R(s[i], s[j])
    ensures forall i, j :: 0 <= i < j < |Filter(s, p)| ==> R(Filter(s, p)[i], Filter(s, p)[j])
  {
    if s != [] {
      var t := s[1..];
      TailKeepsOrder(s, R);
      FilterKeepsOrder(t, p, R);
      if p(s[0]) {
        HeadPrecedesFiltered(s, p, R);
        ConsKeepsOrder(s[0], Filter(t, p), R);
      }
    }
  }

  /** The tail of an ordered sequence is ordered. */
  lemma TailKeepsOrder<T>(s: seq<T>, R: (T, T) -> bool)
    requires s != []
    requires forall i, j :: 0 <= i < j < |s| ==> R(s[i], s[j])
    ensures forall i, j :: 0 <= i < j < |s[1..]| ==> R(s[1..][i], s[1..][j])
  {
    forall i, j | 0 <= i < j < |s[1..]| ensures R(s[1..][i], s[1..][j]) {
      assert s[1..][i] == s[i + 1] && s[1..][j] == s[j + 1];
    }
  }

  /** The head of an ordered sequence precedes whatever a filter keeps of its tail. */
  lemma HeadPrecedesFiltered<T>(s: seq<T>, p: T -> bool, R: (T, T) -> bool)
    requires s != []
    requires forall i, j :: 0 <= i < j < |s| ==> R(s[i], s[j])
    ensures forall y :: y in Filter(s[1..], p) ==> R(s[0], y)
  {
    forall y | y in Filter(s[1..], p) ensures R(s[0], y) {
      var k :| 0 <= k < |s[1..]| && s[1..][k] == y;
      assert s[k + 1] == y;
    }
  }

  /** Putting an element before an ordered sequence it precedes keeps it ordered. */
  lemma ConsKeepsOrder<T>(x: T, t: seq<T>, R: (T, T) -> bool)
    requires forall i, j :: 0 <= i < j < |t| ==> R(t[i], t[j])
    requires forall y :: y in t ==> R(x, y)
    ensures forall i, j :: 0 <= i < j < |[x] + t| ==> R(([x] + t)[i], ([x] + t)[j])
  {
    var r := [x] + t;
    forall i, j | 0 <= i < j < |r| ensures R(r[i], r[j]) {
      assert r[j] == t[j - 1];
      if i > 0 {
        assert r[i] == t[i - 1];
      }
    }
  }

  /** Filtering twice is filtering once by the conjunction. */
  lemma {:induction false} FilterFilter<T>(s: seq<T>, p: T -> bool, q: T -> bool, both: T -> bool)
    requires forall x :: both(x) == (p(x) && q(x))
    ensures Filter(Filter(s, p), q) == Filter(s, both)
  {
    if s != [] {
      FilterFilter(s[1..], p, q, both);
      if p(s[0]) {
        assert Filter(s, p) == [s[0]] + Filter(s[1..], p);
        assert Filter(s, p)[1..] == Filter(s[1..], p);
      }
    }
  }

  /** A predicate that holds of every element keeps the whole sequence. */
  lemma {:induction false} FilterKeepsAll<T>(s: seq<T>, p: T -> bool)
    requires forall x :: x in s ==> p(x)
    ensures Filter(s, p) == s
  {
    if s != [] {
      FilterKeepsAll(s[1..], p);
    }
  }

  /** A predicate that holds of no element keeps nothing. */
  lemma {:induction false} FilterKeepsNone<T>(s: seq<T>, p: T -> bool)
    requires forall x :: x in s ==> !p(x)
    ensures Filter(s, p) == []
  {
    if s != [] {
      FilterKeepsNone(s[1..], p);
    }
  }

  /** What one predicate keeps and its negation keeps add up to the whole sequence. */
  lemma {:induction false} FilterPartition<T>(s: seq<T>, p: T -> bool, notP: T -> bool)
    requires forall x :: notP(x) == !p(x)
    ensures |Filter(s, p)| + |Filter(s, notP)| == |s|
  {
    if s != [] {
      FilterPartition(s[1..], p, notP);
    }
  }

  /** `s.reverse()`: the same elements, last first. */
  function Reverse<T>(s: seq<T>): (r: seq<T>)
    ensures |r| == |s|
    ensures forall i :: 0 <= i < |s| ==> r[i] == s[|s| - 1 - i]
  {
    if s == [] then [] else Reverse(s[1..]) + [s[0]]
  }

  lemma {:induction false} ReversePermutes<T>(s: seq<T>)
    ensures multiset(Reverse(s)) == multiset(s)
  {
    if s != [] {
      ReversePermutes(s[1..]);
      assert s == [s[0]] + s[1..];
    }
  }

  /** Filtering commutes with reversal. */
  lemma {:induction false} FilterReverse<T>(s: seq<T>, P: T -> bool)
    ensures Filter(Reverse(s), P) == Reverse(Filter(s, P))
  {
    if s != [] {
      FilterReverse(s[1..], P);
      FilterAppend(Reverse(s[1..]), [s[0]], P);
      assert Reverse(s) == Reverse(s[1..]) + [s[0]];
    }
  }

  lemma {:induction false} FilterAppend<T>(a: seq<T>, b: seq<T>, P: T -> bool)
    ensures Filter(a + b, P) == Filter(a, P) + Filter(b, P)
  {
    if a != [] {
      FilterAppend(a[1..], b, P);
      assert (a + b)[1..] == a[1..] + b;
    } else {
      assert a + b == b;
    }
  }
}
