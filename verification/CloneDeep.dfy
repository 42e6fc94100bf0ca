/** `_.cloneDeep`: a recursive copy that remembers every object it has started to copy in
    a table, so that a shared or cyclic reference resolves to the copy in progress. */
module CloneDeep {
  import opened Values
  import opened Bisimulation
  import Similarity
  import Judgement
  import Decision
  import DeepEqual

  /** The values a copy descends into.  A Map or Set has no own fields, so nothing. */
  predicate IsChild(n: Node, v: Value) {
    match n
    case ArrayNode(es) => v in es
    case PlainNode(fs) => exists k :: k in fs && fs[k] == v
    case _ => false
  }

  /** `refs` is closed under following references that a copy follows. */
  ghost predicate ClosedUnder(h: Heap, refs: set<Ref>) {
    forall r, v | r in refs && r in h && IsChild(h[r], v) && v.Object? :: v.ref in refs
  }

  /** `r` lies in every closed set that holds the root. */
  ghost predicate Reachable(h: Heap, root: Value, r: Ref) {
    root.Object? && forall refs: set<Ref> :: ClosedUnder(h, refs) && root.ref in refs ==> r in refs
  }

  lemma ReachableStep(h: Heap, root: Value, r: Ref, v: Value)
    requires Reachable(h, root, r) && r in h && IsChild(h[r], v) && v.Object?
    ensures Reachable(h, root, v.ref)
  {
  }

  lemma ReachesItself(h: Heap, root: Value)
    requires root.Object?
    ensures Reachable(h, root, root.ref)
  {
  }

  lemma ReachableChild(h: Heap, v: Value, child: Value)
    requires v.Object? && v.ref in h && IsChild(h[v.ref], child)
    ensures forall r | Reachable(h, child, r) :: Reachable(h, v, r)
  {
    if child.Object? { ReachableStep(h, v, v.ref, child); }
  }

  // ---------- what a copy is ----------

  type Table = map<Ref, Ref>

  function Image(t: Table, v: Value): (w: Value) {
    if v.Object? then (if v.ref in t then Object(t[v.ref]) else Undefined) else v
  }

  ghost predicate Covers(t: Table, n: Node) {
    forall v | IsChild(n, v) && v.Object? :: v.ref in t
  }

  function Renamed(t: Table, n: Node): (m: Node)
    ensures if n.ArrayNode? then m.ArrayNode? else m.PlainNode?
  {
    match n
    case ArrayNode(es) => ArrayNode(seq(|es|, i requires 0 <= i < |es| => Image(t, es[i])))
    case PlainNode(fs) => PlainNode(map k | k in fs :: Image(t, fs[k]))
    case _ => PlainNode(map[])
  }

  ghost predicate InjectiveTable(t: Table) {
    forall r, s | r in t && s in t && r != s :: t[r] != t[s]
  }

  /** `after` is `before` plus a fresh renamed copy of exactly what `root` reaches. */
  ghost predicate IsCopy(before: Heap, after: Heap, root: Value, copy: Value, t: Table) {
    && InjectiveTable(t)
    && (forall r :: r in t <==> Reachable(before, root, r))
    && t.Keys <= before.Keys
    && t.Values !! before.Keys
    && after.Keys == before.Keys + t.Values
    && (forall r | r in before :: after[r] == before[r])
    && (forall r | r in t :: Covers(t, before[r]) && after[t[r]] == Renamed(t, before[r]))
    && copy == Image(t, root)
  }

  /** A primitive is copied as it is, and a reference becomes one to the copy of its object. */
  predicate CopiedAs(t: Table, v: Value, w: Value) {
    if v.Object? then v.ref in t && w == Object(t[v.ref]) else w == v
  }

  /** What the copy of a reached object is, item by item; a Map or a Set becomes an empty object. */
  lemma CopyExact(before: Heap, after: Heap, root: Value, copy: Value, t: Table, r: Ref)
    requires IsCopy(before, after, root, copy, t) && InHeap(before, root) && r in t
    ensures CopiedAs(t, root, copy)
    ensures r in before && t[r] in after && t[r] !in before
    ensures match before[r]
            case ArrayNode(es) =>
              && after[t[r]].ArrayNode? && |after[t[r]].elems| == |es|
              && forall i | 0 <= i < |es| :: CopiedAs(t, es[i], after[t[r]].elems[i])
            case PlainNode(fs) =>
              && after[t[r]].PlainNode? && after[t[r]].fields.Keys == fs.Keys
              && forall k | k in fs :: CopiedAs(t, fs[k], after[t[r]].fields[k])
            case _ => after[t[r]] == PlainNode(map[])
  {
    if root.Object? { ReachesItself(before, root); }
    hide Reachable;
    var n := before[r];
    assert Covers(t, n) && t[r] in t.Values;
    match n
    case ArrayNode(es) =>
      forall i | 0 <= i < |es| ensures CopiedAs(t, es[i], Image(t, es[i])) { assert IsChild(n, es[i]); }
    case PlainNode(fs) =>
      forall k | k in fs ensures CopiedAs(t, fs[k], Image(t, fs[k])) { assert IsChild(n, fs[k]); }
    case _ =>
  }

  // ---------- a copy means the same as its source ----------

  ghost function Graph(t: Table): (rel: Relation) {
    set r | r in t :: (r, t[r])
  }

  lemma ImageRelated(t: Table, v: Value)
    requires v.Object? ==> v.ref in t
    ensures Related(Graph(t), v, Image(t, v))
  {
    if v.Object? { assert (v.ref, t[v.ref]) in Graph(t); }
  }

  lemma RenamedRelated(t: Table, n: Node)
    requires Covers(t, n) && !Similarity.IsContainer(n)
    ensures NodesRelated(Graph(t), n, Renamed(t, n))
  {
    forall v | IsChild(n, v) ensures Related(Graph(t), v, Image(t, v)) {
      ImageRelated(t, v);
    }
    match n
    case ArrayNode(es) =>
      assert forall i | 0 <= i < |es| :: IsChild(n, es[i]);
    case PlainNode(fs) =>
      assert forall k | k in fs :: IsChild(n, fs[k]);
    case _ =>
  }

  /** A copy is bisimilar to its source exactly when the source reaches no Map and no Set
      (those are copied as empty plain objects). */
  lemma CopyFaithful(before: Heap, after: Heap, root: Value, copy: Value, t: Table)
    requires IsCopy(before, after, root, copy, t) && InHeap(before, root)
    ensures Bisimilar(after, root, copy) <==>
            forall r | r in before && Reachable(before, root, r) :: !Similarity.IsContainer(before[r])
  {
    if root.Object? { assert Reachable(before, root, root.ref); }
    if forall r | r in before && Reachable(before, root, r) :: !Similarity.IsContainer(before[r]) {
      forall p | p in Graph(t)
        ensures p.0 in after && p.1 in after && NodesRelated(Graph(t), after[p.0], after[p.1])
      {
        RenamedRelated(t, before[p.0]);
      }
      assert IsBisimulation(after, Graph(t));
      ImageRelated(t, root);
    } else if Bisimilar(after, root, copy) {
      var r :| r in before && Reachable(before, root, r) && Similarity.IsContainer(before[r]);
      CopiesRelated(before, after, root, copy, t);
    }
  }

  /** If root and copy are bisimilar, so is every reached node and its copy. */
  lemma CopiesRelated(before: Heap, after: Heap, root: Value, copy: Value, t: Table)
    requires IsCopy(before, after, root, copy, t) && InHeap(before, root)
    requires Bisimilar(after, root, copy)
    ensures forall r | Reachable(before, root, r) :: r in t && (r, t[r]) in Largest(after)
    ensures forall r | Reachable(before, root, r) :: !Similarity.IsContainer(before[r])
  {
    var largest := Largest(after);
    BisimilarIsLargest(after, root, copy);
    LargestIsBisimulation(after);
    var refs := set r | r in t && (r, t[r]) in largest;
    forall r, v | r in refs && r in before && IsChild(before[r], v) && v.Object?
      ensures v.ref in refs
    {
      assert NodesRelated(largest, before[r], Renamed(t, before[r]));
      ChildRelated(largest, t, before[r], v);
    }
    assert ClosedUnder(before, refs);
    if root.Object? { assert Reachable(before, root, root.ref); }
    forall r | Reachable(before, root, r)
      ensures r in t && (r, t[r]) in largest && !Similarity.IsContainer(before[r])
    {
      assert r in refs;
      assert NodesRelated(largest, before[r], Renamed(t, before[r]));
    }
  }

  lemma ChildRelated(rel: Relation, t: Table, n: Node, v: Value)
    requires Covers(t, n) && NodesRelated(rel, n, Renamed(t, n))
    requires IsChild(n, v) && v.Object?
    ensures (v.ref, t[v.ref]) in rel
  {
    match n
    case ArrayNode(es) =>
      var i :| 0 <= i < |es| && es[i] == v;
      assert Related(rel, es[i], Image(t, es[i]));
    case PlainNode(fs) =>
      var k :| k in fs && fs[k] == v;
      assert Related(rel, fs[k], Image(t, fs[k]));
  }

  // ---------- the copying itself ----------

  /** `h` is the source plus one copy per table entry; the copies of sources outside
      `open` are finished. */
  ghost predicate Consistent(source: Heap, h: Heap, t: Table, open: set<Ref>) {
    && InjectiveTable(t)
    && open <= t.Keys <= source.Keys
    && t.Values !! source.Keys
    && h.Keys == source.Keys + t.Values
    && (forall r | r in source :: h[r] == source[r])
    && (forall r | r in t && r !in open :: Covers(t, source[r]) && h[t[r]] == Renamed(t, source[r]))
  }

  ghost predicate Extends(t: Table, u: Table) {
    t.Keys <= u.Keys && forall r | r in t :: u[r] == t[r]
  }

  /** Once all children are in the table, a copy no longer depends on later entries. */
  lemma RenamedStable(t: Table, u: Table, n: Node)
    requires Extends(t, u) && Covers(t, n)
    ensures Covers(u, n) && Renamed(t, n) == Renamed(u, n)
  {
    assert forall v | IsChild(n, v) :: Image(t, v) == Image(u, v);
    match n
    case ArrayNode(es) =>
      assert forall i | 0 <= i < |es| :: IsChild(n, es[i]);
    case PlainNode(fs) =>
      assert forall k | k in fs :: IsChild(n, fs[k]);
    case _ =>
  }

  lemma RenamedAppend(t: Table, es: seq<Value>, i: nat)
    requires i < |es| && Covers(t, ArrayNode(es[..i])) && (es[i].Object? ==> es[i].ref in t)
    ensures Covers(t, ArrayNode(es[..i + 1]))
    ensures Renamed(t, ArrayNode(es[..i + 1])).elems == Renamed(t, ArrayNode(es[..i])).elems + [Image(t, es[i])]
  {
    forall v | IsChild(ArrayNode(es[..i + 1]), v) && v.Object? ensures v.ref in t {
      assert v != es[i] ==> IsChild(ArrayNode(es[..i]), v);
    }
  }

  lemma RenamedInsert(t: Table, fs: map<string, Value>, k: string, v: Value)
    requires Covers(t, PlainNode(fs)) && (v.Object? ==> v.ref in t)
    ensures Covers(t, PlainNode(fs[k := v]))
    ensures Renamed(t, PlainNode(fs[k := v])).fields == Renamed(t, PlainNode(fs)).fields[k := Image(t, v)]
  {
    forall w | IsChild(PlainNode(fs[k := v]), w) && w.Object? ensures w.ref in t {
      assert w != v ==> IsChild(PlainNode(fs), w);
    }
  }

  lemma ElementInHeap(h: Heap, r: Ref, i: nat)
    requires Closed(h) && r in h && h[r].ArrayNode? && i < |h[r].elems|
    ensures InHeap(h, h[r].elems[i]) && IsChild(h[r], h[r].elems[i])
  {
    assert NodeInHeap(h, h[r]);
  }

  lemma FieldInHeap(h: Heap, r: Ref, k: string)
    requires Closed(h) && r in h && h[r].PlainNode? && k in h[r].fields
    ensures InHeap(h, h[r].fields[k]) && IsChild(h[r], h[r].fields[k])
  {
    assert NodeInHeap(h, h[r]);
  }

  lemma ConsistentSource(source: Heap, h: Heap, t: Table, open: set<Ref>)
    requires Consistent(source, h, t, open)
    ensures forall r | r in source :: r in h && h[r] == source[r]
  {
  }

  lemma ConsistentBegin(source: Heap, h: Heap, t: Table, open: set<Ref>, r: Ref, out: Ref, n: Node)
    requires Consistent(source, h, t, open) && r in source && r !in t && out !in h
    ensures Consistent(source, h[out := n], t[r := out], open + {r})
  {
    var u := t[r := out];
    assert u.Values == t.Values + {out} by {
      assert forall x | x in t :: u[x] == t[x];
      assert u[r] == out;
    }
    assert t.Values <= h.Keys;
    forall x | x in t && x !in open ensures Covers(u, source[x]) && h[t[x]] == Renamed(u, source[x]) {
      RenamedStable(t, u, source[x]);
    }
  }

  lemma ConsistentPut(source: Heap, h: Heap, t: Table, open: set<Ref>, r: Ref, n: Node)
    requires Consistent(source, h, t, open) && r in t && r in open
    ensures Consistent(source, h[t[r] := n], t, open)
  {
    assert t[r] in t.Values;
  }

  lemma ConsistentFinish(source: Heap, h: Heap, t: Table, open: set<Ref>, r: Ref)
    requires Consistent(source, h, t, open) && r in t
    requires Covers(t, source[r]) && h[t[r]] == Renamed(t, source[r])
    ensures Consistent(source, h, t, open - {r})
  {
  }

  class Cloner {
    ghost const source: Heap
    var h: Heap
    var next: Ref
    var seen: seq<(Ref, Ref)>
    ghost var table: Table

    constructor (heap: Heap, firstFree: Ref)
      requires Closed(heap) && forall r | r in heap :: r < firstFree
      ensures h == heap && source == heap && seen == [] && table == map[]
      ensures Valid({})
    {
      source := heap;
      h := heap;
      next := firstFree;
      seen := [];
      table := map[];
    }

    /** `open` are the sources whose copies are still being filled. */
    ghost predicate Valid(open: set<Ref>)
      reads this
    {
      && Closed(source)
      && (forall r | r in h :: r < next)
      && Consistent(source, h, table, open)
      && (forall i | 0 <= i < |seen| :: seen[i].0 in table && table[seen[i].0] == seen[i].1)
      && (forall r | r in table :: (r, table[r]) in seen)
    }

    method Lookup(r: Ref, ghost open: set<Ref>) returns (found: bool, dst: Ref)
      requires Valid(open)
      ensures found <==> r in table
      ensures found ==> dst == table[r]
    {
      for i := 0 to |seen|
        invariant forall j | 0 <= j < i :: seen[j].0 != r
      {
        if seen[i].0 == r { return true, seen[i].1; }
      }
      return false, 0;
    }

    /** Allocate the empty copy of `r` and enter it in the table before its children. */
    method Begin(r: Ref, ghost open: set<Ref>) returns (out: Ref)
      requires Valid(open) && r in source && r !in table
      modifies this
      ensures Valid(open + {r})
      ensures table == old(table)[r := out]
      ensures h == old(h)[out := if source[r].ArrayNode? then ArrayNode([]) else PlainNode(map[])]
      ensures out !in old(h)
    {
      hide Consistent, InjectiveTable, Covers, Renamed, Closed;
      out := next;
      ConsistentSource(source, h, table, open);
      var empty := if h[r].ArrayNode? then ArrayNode([]) else PlainNode(map[]);
      ConsistentBegin(source, h, table, open, r, out, empty);
      h := h[out := empty];
      seen := seen + [(r, out)];
      table := table[r := out];
      next := next + 1;
      assert forall s | s in old(table) :: (s, table[s]) in old(seen);
    }

    /** Replace the unfinished copy of `r`. */
    method Put(r: Ref, n: Node, ghost open: set<Ref>)
      requires Valid(open) && r in table && r in open
      modifies this`h
      ensures Valid(open)
      ensures h == old(h)[table[r] := n]
    {
      var _, out := Lookup(r, open);
      ConsistentPut(source, h, table, open, r, n);
      h := h[out := n];
    }

    lemma ValidFacts(open: set<Ref>)
      requires Valid(open)
      ensures Closed(source)
      ensures forall r | r in source :: r in h && h[r] == source[r]
      ensures forall r | r in table :: r in source && table[r] in h && table[r] !in source
      ensures open <= table.Keys
    {
      assert forall r | r in table :: table[r] in table.Values;
    }

    lemma ValidFinish(open: set<Ref>, r: Ref)
      requires Valid(open) && r in table
      requires r in source && Covers(table, source[r]) && table[r] in h && h[table[r]] == Renamed(table, source[r])
      ensures Valid(open - {r})
    {
      ConsistentFinish(source, h, table, open, r);
    }

    method Deep(v: Value, ghost open: set<Ref>) returns (w: Value)
      requires Valid(open) && InHeap(source, v)
      modifies this
      ensures Valid(open)
      ensures Extends(old(table), table)
      ensures forall r | r in old(h) :: r in h && h[r] == old(h[r])
      ensures forall r | r in table && r !in old(table) :: Reachable(source, v, r)
      ensures v.Object? ==> v.ref in table
      ensures w == Image(table, v)
      decreases source.Keys - table.Keys, 1
    {
      hide Valid, Reachable;
      if !v.Object? { return v; }
      ValidFacts(open);
      var found, dst := Lookup(v.ref, open);
      if found { return Object(dst); }
      ReachesItself(source, v);
      ghost var unvisited := source.Keys - table.Keys;
      var out := Begin(v.ref, open);
      assert v.ref in unvisited && source.Keys - table.Keys == unvisited - {v.ref};
      NothingYet(table);
      if h[v.ref].ArrayNode? {
        FillArray(v, out, open + {v.ref});
      } else {
        FillFields(v, out, open + {v.ref});
      }
      assert open + {v.ref} - {v.ref} == open;
      return Object(out);
    }

    /** The copy `out` of `v` holds the images of `partial`, a part of the source node. */
    ghost predicate Filling(v: Value, out: Ref, partial: Node, open: set<Ref>)
      reads this
    {
      && Valid(open) && v.Object? && v.ref in table && v.ref in open && table[v.ref] == out && v.ref in source
      && Covers(table, partial) && out in h && h[out] == Renamed(table, partial)
    }

    method FillArray(v: Value, out: Ref, ghost open: set<Ref>)
      requires Filling(v, out, ArrayNode([]), open) && source[v.ref].ArrayNode?
      modifies this
      ensures Valid(open - {v.ref})
      ensures Extends(old(table), table)
      ensures forall r | r in old(h) && r != out :: r in h && h[r] == old(h[r])
      ensures forall r | r in table && r !in old(table) :: Reachable(source, v, r)
      decreases source.Keys - table.Keys, 4
    {
      hide Valid, Reachable, Closed, Covers, Renamed;
      ValidFacts(open);
      var n := h[v.ref];
      var i := 0;
      assert n.elems[..0] == [];
      while i < |n.elems|
        invariant 0 <= i <= |n.elems|
        invariant Filling(v, out, ArrayNode(n.elems[..i]), open)
        invariant Extends(old(table), table)
        invariant forall r | r in old(h) && r != out :: r in h && h[r] == old(h[r])
        invariant forall r | r in table && r !in old(table) :: Reachable(source, v, r)
      {
        AddElement(v, out, n.elems, i, open);
        i := i + 1;
      }
      assert n.elems[..i] == n.elems;
      ValidFinish(open, v.ref);
    }

    /** `out[i] = deep(v[i])` */
    method AddElement(v: Value, out: Ref, elems: seq<Value>, i: nat, ghost open: set<Ref>)
      requires i < |elems| && Filling(v, out, ArrayNode(elems[..i]), open) && source[v.ref] == ArrayNode(elems)
      modifies this
      ensures Filling(v, out, ArrayNode(elems[..i + 1]), open)
      ensures Extends(old(table), table)
      ensures forall r | r in old(h) && r != out :: r in h && h[r] == old(h[r])
      ensures forall r | r in table && r !in old(table) :: Reachable(source, v, r)
      decreases source.Keys - table.Keys, 3
    {
      hide Valid, Reachable, Closed, Covers, Renamed, IsChild, Image;
      ValidFacts(open);
      ElementInHeap(source, v.ref, i);
      var w := DeepChild(v, elems[i], out, ArrayNode(elems[..i]), open);
      Put(v.ref, ArrayNode(h[out].elems + [w]), open);
      RenamedAppend(table, elems, i);
    }

    /** Copying a child leaves what is already filled as it is. */
    method DeepChild(v: Value, child: Value, out: Ref, ghost partial: Node, ghost open: set<Ref>) returns (w: Value)
      requires Filling(v, out, partial, open) && InHeap(source, child) && IsChild(source[v.ref], child)
      modifies this
      ensures Filling(v, out, partial, open)
      ensures Extends(old(table), table)
      ensures forall r | r in old(h) :: r in h && h[r] == old(h[r])
      ensures forall r | r in table && r !in old(table) :: Reachable(source, v, r)
      ensures w == Image(table, child) && (child.Object? ==> child.ref in table)
      decreases source.Keys - table.Keys, 2
    {
      hide Valid, Reachable, Covers, Renamed, IsChild, Image;
      w := Deep(child, open);
      RenamedStable(old(table), table, partial);
      ReachableChild(source, v, child);
    }

    method FillFields(v: Value, out: Ref, ghost open: set<Ref>)
      requires Filling(v, out, PlainNode(map[]), open) && !source[v.ref].ArrayNode?
      modifies this
      ensures Valid(open - {v.ref})
      ensures Extends(old(table), table)
      ensures forall r | r in old(h) && r != out :: r in h && h[r] == old(h[r])
      ensures forall r | r in table && r !in old(table) :: Reachable(source, v, r)
      decreases source.Keys - table.Keys, 4
    {
      hide Valid, Reachable, Closed, Covers, Renamed;
      ValidFacts(open);
      var n := h[v.ref];
      if !n.PlainNode? {
        NothingCopied(table, n);
        ValidFinish(open, v.ref);
        return;
      }
      var done: map<string, Value> := map[];
      var rest := n.fields.Keys;
      while rest != {}
        invariant rest <= n.fields.Keys
        invariant done == map k | k in n.fields && k !in rest :: n.fields[k]
        invariant Filling(v, out, PlainNode(done), open)
        invariant Extends(old(table), table)
        invariant forall r | r in old(h) && r != out :: r in h && h[r] == old(h[r])
        invariant forall r | r in table && r !in old(table) :: Reachable(source, v, r)
        decreases |rest|
      {
        var k :| k in rest;
        AddField(v, out, n.fields, k, done, open);
        done := done[k := n.fields[k]];
        rest := rest - {k};
      }
      assert done == n.fields;
      ValidFinish(open, v.ref);
    }

    /** `out[k] = deep(v[k])` */
    method AddField(v: Value, out: Ref, fields: map<string, Value>, k: string, ghost done: map<string, Value>,
                    ghost open: set<Ref>)
      requires k in fields && Filling(v, out, PlainNode(done), open) && source[v.ref] == PlainNode(fields)
      modifies this
      ensures Filling(v, out, PlainNode(done[k := fields[k]]), open)
      ensures Extends(old(table), table)
      ensures forall r | r in old(h) && r != out :: r in h && h[r] == old(h[r])
      ensures forall r | r in table && r !in old(table) :: Reachable(source, v, r)
      decreases source.Keys - table.Keys, 3
    {
      hide Valid, Reachable, Closed, Covers, Renamed, IsChild, Image;
      ValidFacts(open);
      FieldInHeap(source, v.ref, k);
      var w := DeepChild(v, fields[k], out, PlainNode(done), open);
      Put(v.ref, PlainNode(h[out].fields[k := w]), open);
      RenamedInsert(table, done, k, fields[k]);
    }
  }

  /** A Map or Set is copied as an empty object. */
  lemma NothingCopied(t: Table, n: Node)
    requires Similarity.IsContainer(n)
    ensures Covers(t, n) && Renamed(t, n) == Renamed(t, PlainNode(map[]))
  {
  }

  lemma NothingYet(t: Table)
    ensures Covers(t, ArrayNode([])) && Renamed(t, ArrayNode([])) == ArrayNode([])
    ensures Covers(t, PlainNode(map[])) && Renamed(t, PlainNode(map[])) == PlainNode(map[])
  {
  }

  /** Clone `root`: the source graph is left as it was and the result is the root of an
      all-fresh copy of what `root` reaches, with sharing and cycles preserved. */
  method Clone(heap: Heap, firstFree: Ref, root: Value) returns (h: Heap, copy: Value)
    requires Closed(heap) && InHeap(heap, root) && forall r | r in heap :: r < firstFree
    ensures exists t :: IsCopy(heap, h, root, copy, t)
  {
    var c := new Cloner(heap, firstFree);
    copy := c.Deep(root, {});
    h := c.h;
    assert ClosedUnder(heap, c.table.Keys);
    assert IsCopy(heap, h, root, copy, c.table);
  }

  /** Cloning and then comparing, on any graph: the value equals its clone exactly when it
      reaches no Map and no Set, and the comparison never throws. */
  method CloneThenCompare(heap: Heap, firstFree: Ref, root: Value, lengthOf: Similarity.LengthOf)
    returns (v: Judgement.Verdict)
    requires Closed(heap) && InHeap(heap, root) && forall r | r in heap :: r < firstFree
    ensures v == Judgement.Equal || v == Judgement.Different
    ensures v == Judgement.Equal <==>
            forall r | r in heap && Reachable(heap, root, r) :: !Similarity.IsContainer(heap[r])
  {
    hide IsCopy, Reachable, Closed, Bisimilar, Judgement.Judge, Similarity.Unconfused, Decision.Misjudged;
    var h, copy := Clone(heap, firstFree, root);
    ghost var t :| IsCopy(heap, h, root, copy, t);
    CopyFaithful(heap, h, root, copy, t);
    CopyClosed(heap, h, root, copy, t);
    CopyRight(heap, h, root, copy, t, lengthOf);
    v := DeepEqual.DeepEqual(h, lengthOf, root, copy);
  }

  /** The copy holds no Map or Set, so comparing anything with it is right. */
  lemma CopyRight(before: Heap, after: Heap, root: Value, copy: Value, t: Table, lengthOf: Similarity.LengthOf)
    requires IsCopy(before, after, root, copy, t) && InHeap(before, root)
    requires Closed(after) && InHeap(after, root) && InHeap(after, copy)
    ensures Decision.Right(after, lengthOf, root, copy)
  {
    CopyEnclosed(before, after, root, copy, t);
    forall s | s in t.Values ensures !Similarity.IsContainer(after[s]) {
      var r :| r in t && t[r] == s;
      assert after[s] == Renamed(t, before[r]);
    }
    hide IsCopy, Enclosed, Closed, Decision.Right;
    Decision.PlainRight(after, lengthOf, t.Values, root, copy);
  }

  lemma CopyEnclosed(before: Heap, after: Heap, root: Value, copy: Value, t: Table)
    requires IsCopy(before, after, root, copy, t) && InHeap(before, root)
    ensures Enclosed(after, t.Values) && Within(t.Values, copy)
  {
    hide Reachable;
    if root.Object? { ReachesItself(before, root); }
    assert forall r | r in t :: t[r] in t.Values;
    forall s | s in t.Values ensures NodeWithin(t.Values, after[s]) {
      var r :| r in t && t[r] == s;
      RenamedWithin(t.Values, t, before[r]);
    }
  }

  lemma CopyClosed(before: Heap, after: Heap, root: Value, copy: Value, t: Table)
    requires IsCopy(before, after, root, copy, t) && Closed(before) && InHeap(before, root)
    ensures Closed(after) && InHeap(after, copy) && InHeap(after, root)
  {
    hide Reachable;
    CopyEnclosed(before, after, root, copy, t);
    forall r | r in after ensures NodeInHeap(after, after[r]) {
      if r in before {
        assert NodeInHeap(before, before[r]);
        StillWithin(before.Keys, after.Keys, before[r]);
      } else {
        assert NodeWithin(t.Values, after[r]);
        StillWithin(t.Values, after.Keys, after[r]);
      }
    }
  }

  lemma StillWithin(few: set<Ref>, many: set<Ref>, n: Node)
    requires few <= many && NodeWithin(few, n)
    ensures NodeWithin(many, n)
  {
  }

  lemma RenamedWithin(refs: set<Ref>, t: Table, n: Node)
    requires Covers(t, n) && forall r | r in t :: t[r] in refs
    ensures NodeWithin(refs, Renamed(t, n))
  {
    match n
    case ArrayNode(es) =>
      assert forall i | 0 <= i < |es| :: IsChild(n, es[i]);
    case PlainNode(fs) =>
      assert forall k | k in fs :: IsChild(n, fs[k]);
    case _ =>
  }
}
