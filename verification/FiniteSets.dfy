/** Sizes of finite sets, and descending chains of them. */
module FiniteSets {

  lemma {:induction false} SubsetSize<T>(s: set<T>, t: set<T>)
    requires s <= t
    ensures |s| <= |t|
  {
    if s != {} {
      var x :| x in s;
      SubsetSize(s - {x}, t - {x});
    }
  }

  lemma SubsetEqual<T>(s: set<T>, t: set<T>)
    requires s <= t && |s| == |t|
    ensures s == t
  {
    if x :| x in t && x !in s {
      SubsetSize(s, t - {x});
    }
  }

  /** A set of numbers below `n` has at most `n` members. */
  lemma {:induction false} BelowCardinality(s: set<nat>, n: nat)
    requires forall x | x in s :: x < n
    ensures |s| <= n
  {
    if n > 0 {
      if n - 1 in s {
        BelowCardinality(s - {n - 1}, n - 1);
      } else {
        BelowCardinality(s, n - 1);
      }
    } else {
      assert s == {};
    }
  }

  ghost predicate Shrinks<T>(f: nat -> set<T>, k: nat) {
    f(k + 1) <= f(k)
  }

  /** A chain of shrinking finite sets settles. */
  lemma Settles<T>(f: nat -> set<T>) returns (k: nat)
    requires forall i: nat :: Shrinks(f, i)
    ensures f(k + 1) == f(k)
  {
    k := 0;
    while f(k + 1) != f(k)
      decreases |f(k)|
    {
      assert Shrinks(f, k);
      SubsetSize(f(k + 1), f(k));
      if |f(k + 1)| == |f(k)| { SubsetEqual(f(k + 1), f(k)); }
      k := k + 1;
    }
  }
}
