/**
  Sequence helpers shared by the aggregation, matrix and scoring modules:
  duplicate freedom, counting the elements that satisfy a predicate, and
  integer sums.
 */
module Seqs {

  /** No element occurs twice: the sequence enumerates a set. */
  predicate NoDup<T(==)>(s: seq<T>) {
    forall i, j :: 0 <= i < j < |s| ==> s[i] != s[j]
  }

  /** Number of elements of `s` that satisfy `p`, counted from the front. */
  function Count<T>(s: seq<T>, p: T -> bool): nat
  {
    if |s| == 0 then 0
    else Count(s[..|s| - 1], p) + (if p(s[|s| - 1]) then 1 else 0)
  }

  lemma {:induction false} CountAppend<T>(a: seq<T>, b: seq<T>, p: T -> bool)
    ensures Count(a + b, p) == Count(a, p) + Count(b, p)
  {
    if |b| == 0 {
      assert a + b == a;
    } else {
      CountAppend(a, b[..|b| - 1], p);
      assert (a + b)[..|a + b| - 1] == a + b[..|b| - 1];
    }
  }

  lemma CountSingle<T>(x: T, p: T -> bool)
    ensures Count([x], p) == if p(x) then 1 else 0
  {
    assert [x][..0] == [];
  }

  /** Removing the element at `j` takes it out of the count ... */
  lemma RemoveAtCount<T>(b: seq<T>, j: nat, p: T -> bool)
    requires j < |b|
    ensures Count(b, p) == Count(b[..j] + b[j + 1..], p) + (if p(b[j]) then 1 else 0)
  {
    var l, x, r := b[..j], [b[j]], b[j + 1..];
    var lx := b[..j + 1];
    assert lx == l + x;
    assert b == lx + r;
    CountAppend(lx, r, p);
    CountAppend(l, x, p);
    CountAppend(l, r, p);
    CountSingle(b[j], p);
  }

  /** ... and out of the multiset. */
  lemma RemoveAtMultiset<T>(b: seq<T>, j: nat)
    requires j < |b|
    ensures multiset(b[..j] + b[j + 1..]) == multiset(b) - multiset{b[j]}
  {
    var l, r := b[..j], b[j + 1..];
    assert b == l + [b[j]] + r;
    assert multiset(b) == multiset(l) + multiset{b[j]} + multiset(r);
  }

  /** Counting ignores order: two permutations of each other agree on every count. */
  lemma {:induction false} CountPermutation<T>(a: seq<T>, b: seq<T>, p: T -> bool)
    requires multiset(a) == multiset(b)
    ensures Count(a, p) == Count(b, p)
  {
    if |a| == 0 {
      assert |multiset(b)| == 0;
      assert b == [];
    } else {
      var x := a[|a| - 1];
      var front := a[..|a| - 1];
      assert a == front + [x];
      assert multiset(front) == multiset(a) - multiset{x};
      assert x in multiset(b);
      var j :| 0 <= j < |b| && b[j] == x;
      RemoveAtCount(b, j, p);
      RemoveAtMultiset(b, j);
      CountPermutation(front, b[..j] + b[j + 1..], p);
    }
  }

  /** When every element satisfies the predicate, all of them are counted. */
  lemma {:induction false} CountAll<T>(s: seq<T>, p: T -> bool)
    requires forall i :: 0 <= i < |s| ==> p(s[i])
    ensures Count(s, p) == |s|
  {
    if |s| > 0 {
      CountAll(s[..|s| - 1], p);
    }
  }

  /** A count is positive exactly when some element satisfies the predicate. */
  lemma {:induction false} CountPositive<T>(s: seq<T>, p: T -> bool)
    ensures Count(s, p) > 0 <==> exists i :: 0 <= i < |s| && p(s[i])
  {
    if |s| > 0 {
      var front := s[..|s| - 1];
      CountPositive(front, p);
      if exists i :: 0 <= i < |front| && p(front[i]) {
        var i :| 0 <= i < |front| && p(front[i]);
        assert p(s[i]);
      }
      if exists i :: 0 <= i < |s| && p(s[i]) {
        var i :| 0 <= i < |s| && p(s[i]);
        if i < |s| - 1 {
          assert p(front[i]);
        }
      }
    }
  }

  /** Sum of an integer sequence, added from the front. */
  function Sum(s: seq<int>): int
  {
    if |s| == 0 then 0 else Sum(s[..|s| - 1]) + s[|s| - 1]
  }
}
