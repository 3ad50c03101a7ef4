/** Sequence facts shared by the filter engine and the option lists:
    order-preserving sub-sequences, filtering and duplicate-freedom. */
module Seqs {

  /** `a` is obtained from `b` by deleting elements, keeping the order of the rest. */
  predicate IsSubseq<T(==)>(a: seq<T>, b: seq<T>)
    decreases |b|
  {
    |a| == 0 || (|b| > 0 && ((a[0] == b[0] && IsSubseq(a[1..], b[1..])) || IsSubseq(a, b[1..])))
  }

  /** No element occurs twice. */
  predicate NoDuplicates<T(==)>(s: seq<T>) {
    forall i, j :: 0 <= i < j < |s| ==> s[i] != s[j]
  }

  /** The position of the first occurrence of `x` in `s`. */
  function FirstIndex<T(==)>(s: seq<T>, x: T): (k: nat)
    requires x in s
    ensures k < |s| && s[k] == x
    ensures forall j :: 0 <= j < k ==> s[j] != x
  {
    if s[0] == x then 0 else 1 + FirstIndex(s[1..], x)
  }

  /** The elements of `s` that satisfy `p`, in their original order: the
      model of a boolean-mask selection such as `df[mask]`. */
  function Filter<T(==,!new)>(p: T -> bool, s: seq<T>): (r: seq<T>)
    ensures IsSubseq(r, s)
    ensures forall i :: 0 <= i < |r| ==> p(r[i])
    ensures forall x :: multiset(r)[x] == if p(x) then multiset(s)[x] else 0
  {
    if |s| == 0 then []
    else
      var rest := Filter(p, s[1..]);
      assert s == [s[0]] + s[1..];
      if p(s[0]) then [s[0]] + rest else rest
  }

  /** An element is kept exactly when it occurs in the input and satisfies `p`. */
  lemma FilterMembership<T(!new)>(p: T -> bool, s: seq<T>, x: T)
    ensures x in Filter(p, s) <==> x in s && p(x)
  {
    var r := Filter(p, s);
    assert x in r <==> multiset(r)[x] > 0;
    assert x in s <==> multiset(s)[x] > 0;
  }

  /** Two successive selections keep the same rows, in the same order, as
      one selection by the conjunction of both masks. */
  lemma {:induction false} FilterTwice<T(!new)>(p: T -> bool, q: T -> bool, pq: T -> bool, s: seq<T>)
    requires forall x :: pq(x) == (p(x) && q(x))
    ensures Filter(q, Filter(p, s)) == Filter(pq, s)
  {
    if |s| > 0 {
      FilterTwice(p, q, pq, s[1..]);
    }
  }

  lemma SameElementsSameEmptiness<T>(a: seq<T>, b: seq<T>)
    requires forall v :: v in a <==> v in b
    ensures |a| == 0 <==> |b| == 0
  {
    if |a| > 0 {
      assert a[0] in b;
    }
    if |b| > 0 {
      assert b[0] in a;
    }
  }

  /** Two lists of the same elements, each strictly increasing under the same
      key, are equal. */
  lemma {:induction false} StrictlyOrderedUnique<T>(key: T -> int, a: seq<T>, b: seq<T>)
    requires forall v :: v in a <==> v in b
    requires forall i, j :: 0 <= i < j < |a| ==> key(a[i]) < key(a[j])
    requires forall i, j :: 0 <= i < j < |b| ==> key(b[i]) < key(b[j])
    ensures a == b
    decreases |a|
  {
    SameElementsSameEmptiness(a, b);
    if |a| > 0 && |b| > 0 {
      assert a[0] in a && b[0] in b;
      var i :| 0 <= i < |b| && b[i] == a[0];
      var j :| 0 <= j < |a| && a[j] == b[0];
      assert key(b[0]) <= key(b[i]) && key(a[0]) <= key(a[j]);
      assert a[0] == b[0];
      forall v | v in b[1..]
        ensures v in a[1..]
      {
        var k :| 1 <= k < |b| && b[k] == v;
        assert v in b;
        var m :| 0 <= m < |a| && a[m] == v;
        assert key(b[0]) < key(b[k]);
        assert a[1..][m - 1] == v;
      }
      forall v | v in a[1..]
        ensures v in b[1..]
      {
        var k :| 1 <= k < |a| && a[k] == v;
        assert v in a;
        var m :| 0 <= m < |b| && b[m] == v;
        assert key(a[0]) < key(a[k]);
        assert b[1..][m - 1] == v;
      }
      StrictlyOrderedUnique(key, a[1..], b[1..]);
      assert a == [a[0]] + a[1..] && b == [b[0]] + b[1..];
    }
  }
}
