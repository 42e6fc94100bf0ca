/** One-to-one matchings between the positions of two sequences. */
module Matching {
  import opened FiniteSets

  /** `p[i]` is the mate of position `i`; mates are distinct and below `n`. */
  ghost predicate Injection(p: seq<nat>, n: nat) {
    && (forall i | 0 <= i < |p| :: p[i] < n)
    && (forall i, j | 0 <= i < j < |p| :: p[i] != p[j])
  }

  ghost predicate Permutation(p: seq<nat>, n: nat) {
    |p| == n && Injection(p, n)
  }

  /** Each of `n` positions has its own related mate among `m`. */
  ghost predicate Pairs(p: seq<nat>, n: nat, m: nat, rel: (int, int) -> bool) {
    |p| == n && Injection(p, m) && forall i | 0 <= i < n :: rel(i, p[i])
  }

  /** A relation between positions that comes from an equivalence on the items. */
  ghost predicate Difunctional(n: nat, m: nat, rel: (int, int) -> bool) {
    forall i, k, j, l | 0 <= i < n && 0 <= k < n && 0 <= j < m && 0 <= l < m ::
      rel(i, j) && rel(i, l) && rel(k, j) ==> rel(k, l)
  }

  ghost function Range(p: seq<nat>): (s: set<nat>) {
    set i | 0 <= i < |p| :: p[i]
  }

  lemma {:induction false} RangeCardinality(p: seq<nat>, n: nat)
    requires Injection(p, n)
    ensures |Range(p)| == |p|
  {
    if p != [] {
      var q := p[..|p| - 1];
      RangeCardinality(q, n);
      var last := p[|p| - 1];
      assert forall i | 0 <= i < |q| :: q[i] == p[i];
      assert last !in Range(q);
      assert Range(p) == Range(q) + {last};
    }
  }

  /** A permutation reaches every position. */
  lemma PermutationOnto(p: seq<nat>, n: nat, j: nat)
    requires Permutation(p, n) && j < n
    ensures j in p
  {
    if j !in p {
      assert j !in Range(p);
      RangeCardinality(p, n);
      BelowCardinality(Range(p) + {j}, n);
    }
  }

  ghost function Inverse(p: seq<nat>, n: nat): (q: seq<nat>)
    requires Permutation(p, n)
    ensures Permutation(q, n)
    ensures forall j | 0 <= j < n :: p[q[j]] == j
    ensures forall i | 0 <= i < n :: q[p[i]] == i
  {
    assert forall j | 0 <= j < n :: j in p by {
      forall j | 0 <= j < n ensures j in p { PermutationOnto(p, n, j); }
    }
    seq(n, j requires 0 <= j < n => IndexIn(p, j))
  }

  ghost function IndexIn(p: seq<nat>, j: nat): (i: nat)
    requires j in p
    ensures i < |p| && p[i] == j
  {
    var i: nat :| i < |p| && p[i] == j;
    i
  }

  ghost function Compose(p: seq<nat>, q: seq<nat>, n: nat): (r: seq<nat>)
    requires Permutation(p, n) && Permutation(q, n)
    ensures Permutation(r, n)
    ensures forall i | 0 <= i < n :: r[i] == q[p[i]]
  {
    seq(n, i requires 0 <= i < n => q[p[i]])
  }

  /** Greedy choice is safe: if a full matching exists that agrees with the choices made
      so far, and position `i` now takes the unused mate `j`, a full matching that
      agrees with that choice too still exists. */
  lemma Exchange(p: seq<nat>, n: nat, m: nat, rel: (int, int) -> bool, i: nat, j: nat)
    returns (q: seq<nat>)
    requires Pairs(p, n, m, rel) && Difunctional(n, m, rel)
    requires i < n && j < m && rel(i, j)
    requires forall k | 0 <= k < i :: p[k] != j
    ensures Pairs(q, n, m, rel)
    ensures q[i] == j
    ensures forall k | 0 <= k < i :: q[k] == p[k]
  {
    if j in p {
      var l := IndexIn(p, j);
      q := p[l := p[i]][i := j];
      assert rel(l, p[l]) && rel(i, p[i]);
      assert rel(l, p[i]);
    } else {
      q := p[i := j];
    }
  }

  /** A full matching that agrees with the mates chosen so far. */
  ghost predicate Completes(full: seq<nat>, n: nat, m: nat, rel: (int, int) -> bool, mates: seq<nat>) {
    Pairs(full, n, m, rel) && mates <= full
  }

  /** While such a matching exists, the next position has an unused mate. */
  lemma MateLeft(full: seq<nat>, n: nat, m: nat, rel: (int, int) -> bool, mates: seq<nat>)
    requires Completes(full, n, m, rel, mates) && |mates| < n
    ensures exists j :: 0 <= j < m && j !in mates && rel(|mates|, j)
  {
    var i := |mates|;
    assert rel(i, full[i]);
    assert forall k | 0 <= k < i :: mates[k] == full[k];
  }

  /** Taking any unused mate keeps one. */
  lemma TakeMate(full: seq<nat>, n: nat, m: nat, rel: (int, int) -> bool, mates: seq<nat>, j: nat)
    returns (next: seq<nat>)
    requires Completes(full, n, m, rel, mates) && Difunctional(n, m, rel) && |mates| < n
    requires j < m && j !in mates && rel(|mates|, j)
    ensures Completes(next, n, m, rel, mates + [j])
  {
    assert forall k | 0 <= k < |mates| :: full[k] == mates[k] && mates[k] in mates;
    next := Exchange(full, n, m, rel, |mates|, j);
  }
}
