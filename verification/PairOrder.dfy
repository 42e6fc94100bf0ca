/** Sorting of string pairs, first by key and then by value. */
module PairOrder {
  import opened Lexicographic

  type Pair = (string, string)

  predicate PairBefore(a: Pair, b: Pair) {
    Before(a.0, b.0) || (a.0 == b.0 && Before(a.1, b.1))
  }

  predicate InOrder(a: Pair, b: Pair) {
    a == b || PairBefore(a, b)
  }

  lemma OrderTotal(a: Pair, b: Pair)
    ensures InOrder(a, b) || InOrder(b, a)
    ensures InOrder(a, b) && InOrder(b, a) ==> a == b
  {
    BeforeTotal(a.0, b.0);
    BeforeTotal(a.1, b.1);
  }

  lemma OrderTransitive(a: Pair, b: Pair, c: Pair)
    requires InOrder(a, b) && InOrder(b, c)
    ensures InOrder(a, c)
  {
    if Before(a.0, b.0) && Before(b.0, c.0) { BeforeTransitive(a.0, b.0, c.0); }
    if Before(a.1, b.1) && Before(b.1, c.1) { BeforeTransitive(a.1, b.1, c.1); }
  }

  predicate Sorted(ps: seq<Pair>) {
    forall i, j | 0 <= i < j < |ps| :: InOrder(ps[i], ps[j])
  }

  function InsertPair(ps: seq<Pair>, p: Pair): (r: seq<Pair>) {
    if ps == [] || InOrder(p, ps[0]) then [p] + ps else [ps[0]] + InsertPair(ps[1..], p)
  }

  /** `sort()` on a vector of pairs. */
  function Sort(ps: seq<Pair>): (r: seq<Pair>) {
    if ps == [] then [] else InsertPair(Sort(ps[1..]), ps[0])
  }

  lemma {:induction false} InsertSorts(ps: seq<Pair>, p: Pair)
    requires Sorted(ps)
    ensures Sorted(InsertPair(ps, p)) && multiset(InsertPair(ps, p)) == multiset(ps) + multiset{p}
  {
    hide InOrder;
    if ps != [] && !InOrder(p, ps[0]) {
      var rest := InsertPair(ps[1..], p);
      InsertSorts(ps[1..], p);
      OrderTotal(p, ps[0]);
      assert ps == [ps[0]] + ps[1..];
      forall j | 0 <= j < |rest| ensures InOrder(ps[0], rest[j]) {
        assert rest[j] in multiset(rest);
        assert rest[j] == p || rest[j] in ps[1..];
      }
    } else if ps != [] {
      forall j | 0 <= j < |ps| ensures InOrder(p, ps[j]) {
        if j > 0 { OrderTransitive(p, ps[0], ps[j]); }
      }
    }
  }

  /** Sorting is a permutation into order. */
  lemma {:induction false} SortSorts(ps: seq<Pair>)
    ensures Sorted(Sort(ps)) && multiset(Sort(ps)) == multiset(ps)
  {
    if ps != [] {
      SortSorts(ps[1..]);
      InsertSorts(Sort(ps[1..]), ps[0]);
      assert ps == [ps[0]] + ps[1..];
    }
  }

  lemma SameLeast(ps: seq<Pair>, qs: seq<Pair>)
    requires Sorted(ps) && Sorted(qs) && multiset(ps) == multiset(qs) && ps != [] && qs != []
    ensures ps[0] == qs[0]
  {
    hide InOrder;
    assert ps[0] in multiset(qs) && qs[0] in multiset(ps);
    var i :| 0 <= i < |qs| && qs[i] == ps[0];
    var j :| 0 <= j < |ps| && ps[j] == qs[0];
    OrderTotal(ps[0], qs[0]);
  }

  lemma TailMultiset(ps: seq<Pair>)
    requires ps != []
    ensures multiset(ps[1..]) == multiset(ps) - multiset{ps[0]}
  {
    assert ps == [ps[0]] + ps[1..];
  }

  /** There is only one way to put a multiset of pairs in order. */
  lemma {:induction false} SortedUnique(ps: seq<Pair>, qs: seq<Pair>)
    requires Sorted(ps) && Sorted(qs) && multiset(ps) == multiset(qs)
    ensures ps == qs
  {
    hide InOrder;
    assert |multiset(ps)| == |ps| && |multiset(qs)| == |qs|;
    if ps != [] {
      SameLeast(ps, qs);
      TailMultiset(ps);
      TailMultiset(qs);
      SortedUnique(ps[1..], qs[1..]);
      assert ps == [ps[0]] + ps[1..] && qs == [qs[0]] + qs[1..];
    }
  }

  /** Two lists sort to the same list exactly when they hold the same pairs equally often. */
  lemma SortIsMultiset(ps: seq<Pair>, qs: seq<Pair>)
    ensures Sort(ps) == Sort(qs) <==> multiset(ps) == multiset(qs)
  {
    SortSorts(ps);
    SortSorts(qs);
    if multiset(ps) == multiset(qs) { SortedUnique(Sort(ps), Sort(qs)); }
  }

  /** By key and then by value, in the order of their characters. */
  ghost predicate PairsAscend(a: Pair, b: Pair) {
    Less(a.0, b.0) || (a.0 == b.0 && (a.1 == b.1 || Less(a.1, b.1)))
  }

  lemma SortedAscends(ps: seq<Pair>, i: nat, j: nat)
    requires i < j < |Sort(ps)|
    ensures PairsAscend(Sort(ps)[i], Sort(ps)[j])
  {
    hide Sort, Before, Less;
    SortSorts(ps);
    var a, b := Sort(ps)[i], Sort(ps)[j];
    BeforeIsLess(a.0, b.0);
    BeforeIsLess(a.1, b.1);
  }
}
