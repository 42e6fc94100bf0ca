/** When two nodes of an object graph mean the same thing: the independent reference
    for deep equality.  Nothing here follows the comparison algorithm. */
module Bisimulation {
  import opened Values
  import opened Matching

  type Relation = set<(Ref, Ref)>

  /** Values related by `rel`: equal primitives, or references paired by `rel`. */
  ghost predicate Related(rel: Relation, a: Value, b: Value) {
    if a.Object? && b.Object? then (a.ref, b.ref) in rel
    else !a.Object? && !b.Object? && PrimitiveEqual(a, b)
  }

  ghost predicate AllRelated(rel: Relation, xs: seq<Value>, ys: seq<Value>) {
    |xs| == |ys| && forall i | 0 <= i < |xs| :: Related(rel, xs[i], ys[i])
  }

  ghost predicate RowMatching(rel: Relation, xs: seq<seq<Value>>, ys: seq<seq<Value>>, p: seq<nat>) {
    && |xs| == |ys|
    && Permutation(p, |xs|)
    && forall i | 0 <= i < |xs| :: AllRelated(rel, xs[i], ys[p[i]])
  }

  /** A one-to-one matching of related rows exists, whatever the order of the rows. */
  ghost predicate RowsRelated(rel: Relation, xs: seq<seq<Value>>, ys: seq<seq<Value>>) {
    exists p: seq<nat> :: RowMatching(rel, xs, ys, p)
  }

  ghost predicate FieldsRelated(rel: Relation, f: map<string, Value>, g: map<string, Value>) {
    f.Keys == g.Keys && forall k | k in f :: Related(rel, f[k], g[k])
  }

  ghost predicate NodesRelated(rel: Relation, n: Node, m: Node) {
    match (n, m)
    case (ArrayNode(xs), ArrayNode(ys)) => AllRelated(rel, xs, ys)
    case (PlainNode(f), PlainNode(g)) => FieldsRelated(rel, f, g)
    case (MapNode(_), MapNode(_)) => RowsRelated(rel, EntryRows(n), EntryRows(m))
    case (SetNode(xs), SetNode(ys)) => RowsRelated(rel, MemberRows(xs), MemberRows(ys))
    case (_, _) => false
  }

  ghost predicate IsBisimulation(h: Heap, rel: Relation) {
    forall p | p in rel :: p.0 in h && p.1 in h && NodesRelated(rel, h[p.0], h[p.1])
  }

  /** Two values are bisimilar when some bisimulation relates them. */
  ghost predicate Bisimilar(h: Heap, a: Value, b: Value) {
    exists rel: Relation :: IsBisimulation(h, rel) && Related(rel, a, b)
  }

  // ---------- Maps and Sets without rows ----------

  ghost predicate EntriesMatch(rel: Relation, es: seq<(Value, Value)>, fs: seq<(Value, Value)>, p: seq<nat>) {
    |es| == |fs| && Permutation(p, |es|) &&
    forall i | 0 <= i < |es| :: Related(rel, es[i].0, fs[p[i]].0) && Related(rel, es[i].1, fs[p[i]].1)
  }

  ghost predicate MembersMatch(rel: Relation, xs: seq<Value>, ys: seq<Value>, p: seq<nat>) {
    |xs| == |ys| && Permutation(p, |xs|) && forall i | 0 <= i < |xs| :: Related(rel, xs[i], ys[p[i]])
  }

  /** Two Maps are related when their entries can be paired off, key with key and value with
      value, and two Sets when their members can. */
  lemma ContainersRelated(rel: Relation, es: seq<(Value, Value)>, fs: seq<(Value, Value)>, xs: seq<Value>,
                          ys: seq<Value>)
    ensures NodesRelated(rel, MapNode(es), MapNode(fs)) <==> exists p :: EntriesMatch(rel, es, fs, p)
    ensures NodesRelated(rel, SetNode(xs), SetNode(ys)) <==> exists p :: MembersMatch(rel, xs, ys, p)
  {
    forall p: seq<nat> ensures RowMatching(rel, EntryRows(MapNode(es)), EntryRows(MapNode(fs)), p) <==>
                               EntriesMatch(rel, es, fs, p) {
      EntriesRowed(rel, es, fs, p);
    }
    forall p: seq<nat> ensures RowMatching(rel, MemberRows(xs), MemberRows(ys), p) <==> MembersMatch(rel, xs, ys, p) {
      MembersRowed(rel, xs, ys, p);
    }
  }

  lemma EntriesRowed(rel: Relation, es: seq<(Value, Value)>, fs: seq<(Value, Value)>, p: seq<nat>)
    ensures RowMatching(rel, EntryRows(MapNode(es)), EntryRows(MapNode(fs)), p) <==> EntriesMatch(rel, es, fs, p)
  {
    var xs, ys := EntryRows(MapNode(es)), EntryRows(MapNode(fs));
    if |es| == |fs| && Permutation(p, |es|) {
      forall i | 0 <= i < |es|
        ensures AllRelated(rel, xs[i], ys[p[i]]) <==>
                Related(rel, es[i].0, fs[p[i]].0) && Related(rel, es[i].1, fs[p[i]].1)
      {
        assert xs[i] == [es[i].0, es[i].1] && ys[p[i]] == [fs[p[i]].0, fs[p[i]].1];
        TwoRelated(rel, es[i].0, es[i].1, fs[p[i]].0, fs[p[i]].1);
      }
    }
  }

  lemma MembersRowed(rel: Relation, xs: seq<Value>, ys: seq<Value>, p: seq<nat>)
    ensures RowMatching(rel, MemberRows(xs), MemberRows(ys), p) <==> MembersMatch(rel, xs, ys, p)
  {
    if |xs| == |ys| && Permutation(p, |xs|) {
      forall i | 0 <= i < |xs|
        ensures AllRelated(rel, MemberRows(xs)[i], MemberRows(ys)[p[i]]) <==> Related(rel, xs[i], ys[p[i]])
      {
        assert MemberRows(xs)[i] == [xs[i]] && MemberRows(ys)[p[i]] == [ys[p[i]]];
        OneRelated(rel, xs[i], ys[p[i]]);
      }
    }
  }

  lemma OneRelated(rel: Relation, a: Value, b: Value)
    ensures AllRelated(rel, [a], [b]) <==> Related(rel, a, b)
  {
    assert [a][0] == a && [b][0] == b;
  }

  lemma TwoRelated(rel: Relation, a: Value, b: Value, c: Value, d: Value)
    ensures AllRelated(rel, [a, b], [c, d]) <==> Related(rel, a, c) && Related(rel, b, d)
  {
    assert [a, b][0] == a && [a, b][1] == b && [c, d][0] == c && [c, d][1] == d;
  }

  // ---------- monotonicity and the largest bisimulation ----------

  lemma NodesRelatedMonotone(small: Relation, big: Relation, n: Node, m: Node)
    requires small <= big && NodesRelated(small, n, m)
    ensures NodesRelated(big, n, m)
  {
    if n.MapNode? {
      var p :| RowMatching(small, EntryRows(n), EntryRows(m), p);
      assert RowMatching(big, EntryRows(n), EntryRows(m), p);
    } else if n.SetNode? {
      var p :| RowMatching(small, MemberRows(n.members), MemberRows(m.members), p);
      assert RowMatching(big, MemberRows(n.members), MemberRows(m.members), p);
    }
  }

  ghost function AllPairs(h: Heap): (s: Relation) {
    set r, s | r in h && s in h :: (r, s)
  }

  ghost function Largest(h: Heap): (rel: Relation) {
    set p | p in AllPairs(h) && exists rel: Relation :: p in rel && IsBisimulation(h, rel)
  }

  lemma BelowLargest(h: Heap, rel: Relation)
    requires IsBisimulation(h, rel)
    ensures rel <= Largest(h)
  {
    forall p | p in rel ensures p in Largest(h) {
      assert p == (p.0, p.1);
    }
  }

  lemma LargestIsBisimulation(h: Heap)
    ensures IsBisimulation(h, Largest(h))
  {
    forall p | p in Largest(h)
      ensures p.0 in h && p.1 in h && NodesRelated(Largest(h), h[p.0], h[p.1])
    {
      var rel: Relation :| p in rel && IsBisimulation(h, rel);
      BelowLargest(h, rel);
      NodesRelatedMonotone(rel, Largest(h), h[p.0], h[p.1]);
    }
  }

  lemma BisimilarIsLargest(h: Heap, a: Value, b: Value)
    ensures Bisimilar(h, a, b) <==> Related(Largest(h), a, b)
  {
    if Bisimilar(h, a, b) {
      var rel: Relation :| IsBisimulation(h, rel) && Related(rel, a, b);
      BelowLargest(h, rel);
    }
    LargestIsBisimulation(h);
  }

  // ---------- bisimilarity is an equivalence ----------

  ghost function Identity(h: Heap): (rel: Relation) {
    set r | r in h :: (r, r)
  }

  ghost function IdentityMatching(n: nat): (p: seq<nat>)
    ensures Permutation(p, n)
    ensures forall i | 0 <= i < n :: p[i] == i
  {
    seq(n, i requires 0 <= i < n => i)
  }

  lemma IdentityIsBisimulation(h: Heap)
    requires Closed(h)
    ensures IsBisimulation(h, Identity(h))
  {
    var id := Identity(h);
    assert forall v | InHeap(h, v) :: Related(id, v, v);
    forall p | p in id ensures NodesRelated(id, h[p.0], h[p.1]) {
      var n := h[p.0];
      assert NodeInHeap(h, n);
      if n.MapNode? {
        assert RowMatching(id, EntryRows(n), EntryRows(n), IdentityMatching(|n.entries|));
      } else if n.SetNode? {
        assert RowMatching(id, MemberRows(n.members), MemberRows(n.members), IdentityMatching(|n.members|));
      }
    }
  }

  lemma Reflexive(h: Heap, a: Value)
    requires Closed(h) && InHeap(h, a)
    ensures Related(Largest(h), a, a)
  {
    IdentityIsBisimulation(h);
    BelowLargest(h, Identity(h));
    if a.Object? { assert (a.ref, a.ref) in Identity(h); }
  }

  ghost function Converse(rel: Relation): (inv: Relation) {
    set p | p in rel :: (p.1, p.0)
  }

  lemma RelatedConverse(rel: Relation, a: Value, b: Value)
    requires Related(rel, a, b)
    ensures Related(Converse(rel), b, a)
  {
    if a.Object? { assert (a.ref, b.ref) in rel; }
  }

  lemma AllRelatedConverse(rel: Relation, xs: seq<Value>, ys: seq<Value>)
    requires AllRelated(rel, xs, ys)
    ensures AllRelated(Converse(rel), ys, xs)
  {
    forall i | 0 <= i < |xs| ensures Related(Converse(rel), ys[i], xs[i]) {
      RelatedConverse(rel, xs[i], ys[i]);
    }
  }

  lemma RowsRelatedConverse(rel: Relation, xs: seq<seq<Value>>, ys: seq<seq<Value>>)
    requires RowsRelated(rel, xs, ys)
    ensures RowsRelated(Converse(rel), ys, xs)
  {
    var p :| RowMatching(rel, xs, ys, p);
    var q := Inverse(p, |xs|);
    forall j | 0 <= j < |ys| ensures AllRelated(Converse(rel), ys[j], xs[q[j]]) {
      assert AllRelated(rel, xs[q[j]], ys[p[q[j]]]);
      AllRelatedConverse(rel, xs[q[j]], ys[j]);
    }
    assert RowMatching(Converse(rel), ys, xs, q);
  }

  lemma NodesRelatedConverse(rel: Relation, n: Node, m: Node)
    requires NodesRelated(rel, n, m)
    ensures NodesRelated(Converse(rel), m, n)
  {
    match n
    case ArrayNode(xs) => AllRelatedConverse(rel, xs, m.elems);
    case PlainNode(f) =>
      forall k | k in f ensures Related(Converse(rel), m.fields[k], f[k]) {
        RelatedConverse(rel, f[k], m.fields[k]);
      }
    case MapNode(_) => RowsRelatedConverse(rel, EntryRows(n), EntryRows(m));
    case SetNode(xs) => RowsRelatedConverse(rel, MemberRows(xs), MemberRows(m.members));
  }

  lemma Symmetric(h: Heap, a: Value, b: Value)
    requires Related(Largest(h), a, b)
    ensures Related(Largest(h), b, a)
  {
    var rel := Largest(h);
    LargestIsBisimulation(h);
    assert IsBisimulation(h, Converse(rel)) by {
      forall p | p in Converse(rel)
        ensures p.0 in h && p.1 in h && NodesRelated(Converse(rel), h[p.0], h[p.1])
      {
        assert (p.1, p.0) in rel;
        NodesRelatedConverse(rel, h[p.1], h[p.0]);
      }
    }
    BelowLargest(h, Converse(rel));
    RelatedConverse(rel, a, b);
  }

  ghost function Composed(rel: Relation, sel: Relation): (r: Relation) {
    set p, q | p in rel && q in sel && p.1 == q.0 :: (p.0, q.1)
  }

  lemma RelatedComposed(rel: Relation, sel: Relation, a: Value, b: Value, c: Value)
    requires Related(rel, a, b) && Related(sel, b, c)
    ensures Related(Composed(rel, sel), a, c)
  {
    if a.Object? {
      assert (a.ref, b.ref) in rel && (b.ref, c.ref) in sel;
    }
  }

  lemma AllRelatedComposed(rel: Relation, sel: Relation, xs: seq<Value>, ys: seq<Value>, zs: seq<Value>)
    requires AllRelated(rel, xs, ys) && AllRelated(sel, ys, zs)
    ensures AllRelated(Composed(rel, sel), xs, zs)
  {
    forall i | 0 <= i < |xs| ensures Related(Composed(rel, sel), xs[i], zs[i]) {
      RelatedComposed(rel, sel, xs[i], ys[i], zs[i]);
    }
  }

  lemma RowsRelatedComposed(rel: Relation, sel: Relation,
                            xs: seq<seq<Value>>, ys: seq<seq<Value>>, zs: seq<seq<Value>>)
    requires RowsRelated(rel, xs, ys) && RowsRelated(sel, ys, zs)
    ensures RowsRelated(Composed(rel, sel), xs, zs)
  {
    var p :| RowMatching(rel, xs, ys, p);
    var q :| RowMatching(sel, ys, zs, q);
    var r := Compose(p, q, |xs|);
    forall i | 0 <= i < |xs| ensures AllRelated(Composed(rel, sel), xs[i], zs[r[i]]) {
      AllRelatedComposed(rel, sel, xs[i], ys[p[i]], zs[q[p[i]]]);
    }
    assert RowMatching(Composed(rel, sel), xs, zs, r);
  }

  lemma NodesRelatedComposed(rel: Relation, sel: Relation, n: Node, m: Node, o: Node)
    requires NodesRelated(rel, n, m) && NodesRelated(sel, m, o)
    ensures NodesRelated(Composed(rel, sel), n, o)
  {
    match n
    case ArrayNode(xs) => AllRelatedComposed(rel, sel, xs, m.elems, o.elems);
    case PlainNode(f) =>
      forall k | k in f ensures Related(Composed(rel, sel), f[k], o.fields[k]) {
        RelatedComposed(rel, sel, f[k], m.fields[k], o.fields[k]);
      }
    case MapNode(_) => RowsRelatedComposed(rel, sel, EntryRows(n), EntryRows(m), EntryRows(o));
    case SetNode(xs) =>
      RowsRelatedComposed(rel, sel, MemberRows(xs), MemberRows(m.members), MemberRows(o.members));
  }

  lemma Transitive(h: Heap, a: Value, b: Value, c: Value)
    requires Related(Largest(h), a, b) && Related(Largest(h), b, c)
    ensures Related(Largest(h), a, c)
  {
    var rel := Largest(h);
    LargestIsBisimulation(h);
    assert IsBisimulation(h, Composed(rel, rel)) by {
      forall p | p in Composed(rel, rel)
        ensures p.0 in h && p.1 in h && NodesRelated(Composed(rel, rel), h[p.0], h[p.1])
      {
        var x, y :| x in rel && y in rel && x.1 == y.0 && p == (x.0, y.1);
        NodesRelatedComposed(rel, rel, h[x.0], h[x.1], h[y.1]);
      }
    }
    BelowLargest(h, Composed(rel, rel));
    RelatedComposed(rel, rel, a, b, c);
  }

  /** Bisimilarity is reflexive, symmetric and transitive on the values of a graph. */
  lemma BisimilarEquivalence(h: Heap, a: Value, b: Value, c: Value)
    requires Closed(h) && InHeap(h, a)
    ensures Bisimilar(h, a, a)
    ensures Bisimilar(h, a, b) ==> Bisimilar(h, b, a)
    ensures Bisimilar(h, a, b) && Bisimilar(h, b, c) ==> Bisimilar(h, a, c)
  {
    BisimilarIsLargest(h, a, a);
    BisimilarIsLargest(h, a, b);
    BisimilarIsLargest(h, b, a);
    BisimilarIsLargest(h, b, c);
    BisimilarIsLargest(h, a, c);
    Reflexive(h, a);
    if Bisimilar(h, a, b) {
      Symmetric(h, a, b);
      if Bisimilar(h, b, c) { Transitive(h, a, b, c); }
    }
  }
}
