/** chai's `.members`: the target array and the expected list hold the same elements,
    counted with multiplicity, in any order. */
module Members {
  import opened Values
  import opened Matching
  import opened Bisimulation
  import Similarity
  import Judgement
  import Decision
  import DeepEqual

  datatype Outcome = Passed | AssertionError | Raised

  /** Whether two elements are the same: bisimilar with the deep flag, `===` without. */
  ghost predicate Same(h: Heap, deep: bool, x: Value, y: Value) {
    if deep then Bisimilar(h, x, y) else StrictEqual(x, y)
  }

  ghost function Mates(h: Heap, deep: bool, xs: seq<Value>, ys: seq<Value>): (rel: (int, int) -> bool) {
    (i: int, j: int) => 0 <= i < |xs| && 0 <= j < |ys| && Same(h, deep, ys[j], xs[i])
  }

  /** The elements can be paired off one to one. */
  ghost predicate SameMembers(h: Heap, deep: bool, xs: seq<Value>, ys: seq<Value>) {
    |xs| == |ys| && exists p: seq<nat> :: Pairs(p, |xs|, |ys|, Mates(h, deep, xs, ys))
  }

  /** Without the deep flag NaN equals nothing and any other value itself, zeros whatever their sign. */
  lemma SameShallow(h: Heap, x: Value, y: Value)
    ensures Same(h, false, x, y) <==> x != Numeric(NaN) && (x == y || Decision.SignedZeros(x, y))
  {
    Decision.PrimitiveEqualExact(x, y);
  }

  lemma SameSymmetric(h: Heap, deep: bool, x: Value, y: Value)
    requires Same(h, deep, x, y)
    ensures Same(h, deep, y, x)
  {
    if deep {
      BisimilarIsLargest(h, x, y);
      BisimilarIsLargest(h, y, x);
      Symmetric(h, x, y);
    }
  }

  lemma SameTransitive(h: Heap, deep: bool, x: Value, y: Value, z: Value)
    requires Same(h, deep, x, y) && Same(h, deep, y, z)
    ensures Same(h, deep, x, z)
  {
    if deep {
      BisimilarIsLargest(h, x, y);
      BisimilarIsLargest(h, y, z);
      BisimilarIsLargest(h, x, z);
      Transitive(h, x, y, z);
    }
  }

  /** `===` is not reflexive at NaN, but symmetry and transitivity are enough. */
  lemma MatesDifunctional(h: Heap, deep: bool, xs: seq<Value>, ys: seq<Value>)
    requires |xs| == |ys|
    ensures Difunctional(|xs|, |ys|, Mates(h, deep, xs, ys))
  {
    var rel := Mates(h, deep, xs, ys);
    forall i, k, j, l | 0 <= i < |xs| && 0 <= k < |xs| && 0 <= j < |xs| && 0 <= l < |xs|
      && rel(i, j) && rel(i, l) && rel(k, j)
      ensures rel(k, l)
    {
      SameSymmetric(h, deep, ys[j], xs[i]);
      SameTransitive(h, deep, ys[l], xs[i], ys[j]);
      SameTransitive(h, deep, ys[l], ys[j], xs[k]);
    }
  }

  /** Nothing that can meet when elements are compared deeply is confused. */
  ghost predicate Clear(h: Heap, lengthOf: Similarity.LengthOf, deep: bool, x: Value, y: Value)
    requires Closed(h) && InHeap(h, x) && InHeap(h, y)
  {
    deep ==>
      var sc := Similarity.ScopeOf(h, lengthOf, x, y);
      Similarity.Sound(sc) && Similarity.Unconfused(sc)
  }

  ghost predicate AllClear(h: Heap, lengthOf: Similarity.LengthOf, deep: bool, xs: seq<Value>, ys: seq<Value>)
    requires Closed(h) && AllWithin(h.Keys, xs) && AllWithin(h.Keys, ys)
  {
    forall i, j | 0 <= i < |xs| && 0 <= j < |ys| :: Clear(h, lengthOf, deep, xs[i], ys[j])
  }

  /** `deep ? nativeDeepEqual(x, y) : x === y` */
  method CompareMembers(h: Heap, lengthOf: Similarity.LengthOf, deep: bool, x: Value, y: Value)
    returns (v: Judgement.Verdict)
    requires Closed(h) && InHeap(h, x) && InHeap(h, y)
    ensures Clear(h, lengthOf, deep, x, y) ==>
              v == if Same(h, deep, x, y) then Judgement.Equal else Judgement.Different
  {
    if deep {
      v := DeepEqual.DeepEqual(h, lengthOf, x, y);
    } else {
      v := if StrictEqual(x, y) then Judgement.Equal else Judgement.Different;
    }
  }

  /** The first unused target element that is the same as the needle. */
  method FindMember(h: Heap, lengthOf: Similarity.LengthOf, deep: bool, target: seq<Value>, used: seq<bool>,
                    needle: Value)
    returns (v: Judgement.Verdict, i: nat)
    requires Closed(h) && InHeap(h, needle) && AllWithin(h.Keys, target) && |used| == |target|
    ensures v == Judgement.Equal ==> i < |target| && !used[i]
    ensures (forall k | 0 <= k < |target| :: Clear(h, lengthOf, deep, target[k], needle)) ==>
              && v != Judgement.Thrown
              && (v == Judgement.Equal ==> Same(h, deep, target[i], needle))
              && (v == Judgement.Different ==>
                    forall k | 0 <= k < |target| && !used[k] :: !Same(h, deep, target[k], needle))
  {
    hide Same, Clear, Closed;
    i := 0;
    while i < |target|
      invariant i <= |target|
      invariant (forall k | 0 <= k < |target| :: Clear(h, lengthOf, deep, target[k], needle)) ==>
          forall k | 0 <= k < i && !used[k] :: !Same(h, deep, target[k], needle)
    {
      if !used[i] {
        v := CompareMembers(h, lengthOf, deep, target[i], needle);
        if v != Judgement.Different { return; }
      }
      i := i + 1;
    }
    v := Judgement.Different;
  }

  /** Every element of `list` in turn takes the first unused mate in `target`; this
      succeeds exactly when the two can be paired off at all. */
  method AllMatched(h: Heap, lengthOf: Similarity.LengthOf, deep: bool, target: seq<Value>, list: seq<Value>)
    returns (v: Judgement.Verdict)
    requires Closed(h) && AllWithin(h.Keys, target) && AllWithin(h.Keys, list)
    ensures AllClear(h, lengthOf, deep, target, list) ==>
              v == if SameMembers(h, deep, list, target) then Judgement.Equal else Judgement.Different
  {
    hide Same, Clear, Closed, Completes, Difunctional, SameMembers;
    if |target| != |list| {
      MembersCount(h, deep, list, target);
      return Judgement.Different;
    }
    var used := seq(|target|, i => false);
    ghost var mates: seq<nat>, full: seq<nat> := [], [];
    ghost var clear := AllClear(h, lengthOf, deep, target, list);
    ghost var matchable := SameMembers(h, deep, list, target);
    ghost var rel := Mates(h, deep, list, target);
    MatesDifunctional(h, deep, list, target);
    if matchable { full := FullPairing(h, deep, list, target); }
    for j := 0 to |list|
      invariant |used| == |target| && |mates| == j && Injection(mates, |target|)
      invariant forall i | 0 <= i < |target| :: used[i] <==> i in mates
      invariant clear ==> forall k | 0 <= k < j :: Same(h, deep, target[mates[k]], list[k])
      invariant clear && matchable ==> Completes(full, |list|, |target|, rel, mates)
    {
      var i;
      v, i := FindMember(h, lengthOf, deep, target, used, list[j]);
      if v == Judgement.Thrown { return; }
      if clear && matchable { MateLeft(full, |list|, |target|, rel, mates); }
      if v == Judgement.Different { return; }
      if clear && matchable { full := TakeMate(full, |list|, |target|, rel, mates, i); }
      used := used[i := true];
      mates := mates + [i];
    }
    if clear { PairedOff(h, deep, list, target, mates); }
    return Judgement.Equal;
  }

  lemma MembersCount(h: Heap, deep: bool, xs: seq<Value>, ys: seq<Value>)
    ensures SameMembers(h, deep, xs, ys) ==> |xs| == |ys|
  {
  }

  lemma FullPairing(h: Heap, deep: bool, xs: seq<Value>, ys: seq<Value>) returns (full: seq<nat>)
    requires SameMembers(h, deep, xs, ys)
    ensures Completes(full, |xs|, |ys|, Mates(h, deep, xs, ys), [])
  {
    full :| Pairs(full, |xs|, |ys|, Mates(h, deep, xs, ys));
  }

  lemma PairedOff(h: Heap, deep: bool, xs: seq<Value>, ys: seq<Value>, mates: seq<nat>)
    requires |xs| == |ys| == |mates| && Injection(mates, |ys|)
    requires forall k | 0 <= k < |xs| :: Same(h, deep, ys[mates[k]], xs[k])
    ensures SameMembers(h, deep, xs, ys)
  {
    hide Same;
    assert Pairs(mates, |xs|, |ys|, Mates(h, deep, xs, ys));
  }

  predicate IsArray(h: Heap, v: Value) {
    v.Object? && v.ref in h && h[v.ref].ArrayNode?
  }

  lemma ArrayWithin(h: Heap, v: Value)
    requires Closed(h) && IsArray(h, v)
    ensures AllWithin(h.Keys, h[v.ref].elems)
  {
    assert NodeInHeap(h, h[v.ref]);
  }

  /** `expect(obj)[.not][.deep].members(list)`.  Anything that is not two arrays fails, negated
      or not; an exception of the comparison passes through. */
  method AssertMembers(h: Heap, lengthOf: Similarity.LengthOf, obj: Value, list: Value, deep: bool, negate: bool)
    returns (r: Outcome)
    requires Closed(h) && InHeap(h, obj) && InHeap(h, list)
    ensures !(IsArray(h, obj) && IsArray(h, list)) ==> r == AssertionError
    ensures IsArray(h, obj) && IsArray(h, list) ==>
              var xs, ys := h[list.ref].elems, h[obj.ref].elems;
              && AllWithin(h.Keys, xs) && AllWithin(h.Keys, ys)
              && (AllClear(h, lengthOf, deep, ys, xs) ==>
                    r == if SameMembers(h, deep, xs, ys) != negate then Passed else AssertionError)
  {
    hide SameMembers, AllClear, Closed;
    if !(IsArray(h, obj) && IsArray(h, list)) { return AssertionError; }
    ArrayWithin(h, obj);
    ArrayWithin(h, list);
    var v := AllMatched(h, lengthOf, deep, h[obj.ref].elems, h[list.ref].elems);
    if v == Judgement.Thrown { return Raised; }
    return if (v == Judgement.Equal) != negate then Passed else AssertionError;
  }
}
