/** The canonical deep comparison (`__tropelDeepEqual`): a recursive walk that pushes the
    pair it is comparing on a shared `seen` stack, assumes any pair already on the stack
    to be equal, and pops on the way out. */
module DeepEqual {
  import opened Values
  import opened Bisimulation
  import opened Lexicographic
  import opened Similarity
  import opened Judgement
  import opened Decision

  ghost function Elements(seen: seq<(Ref, Ref)>): (rel: Relation) {
    set i | 0 <= i < |seen| :: seen[i]
  }

  lemma ElementsPush(seen: seq<(Ref, Ref)>, p: (Ref, Ref))
    ensures Elements(seen + [p]) == Elements(seen) + {p}
  {
    var longer := seen + [p];
    assert forall i | 0 <= i < |seen| :: longer[i] == seen[i];
    assert longer[|seen|] == p;
  }

  method OrderedKeys(f: map<string, Value>) returns (ks: seq<string>)
    ensures ks == InOrder(f.Keys)
    ensures forall j | 0 <= j < |ks| :: ks[j] in f
  {
    hide InOrder;
    ks := SortedKeys(f);
    AscendingUnique(ks, InOrder(f.Keys));
    assert forall j | 0 <= j < |ks| :: ks[j] in ks;
  }

  class Comparison {
    const h: Heap
    const lengthOf: LengthOf
    var seen: seq<(Ref, Ref)>

    constructor (heap: Heap, lengthOf: LengthOf)
      ensures h == heap && this.lengthOf == lengthOf && seen == [] && Assumed() == {}
    {
      h := heap;
      this.lengthOf := lengthOf;
      seen := [];
    }

    ghost function Assumed(): (rel: Relation)
      reads this
    {
      Elements(seen)
    }

    method OnStack(r: Ref, s: Ref) returns (found: bool)
      ensures found <==> (r, s) in Assumed()
    {
      for i := 0 to |seen|
        invariant forall j | 0 <= j < i :: seen[j] != (r, s)
      {
        if seen[i] == (r, s) { return true; }
      }
      return false;
    }

    /** `__tropelDeepEqual(a, b, seen)`.  An exception leaves on the stack what it was pushed;
        every other exit restores it. */
    method Compare(a: Value, b: Value) returns (v: Verdict)
      requires Closed(h) && InHeap(h, a) && InHeap(h, b)
      modifies this
      ensures v == Judge(h, lengthOf, old(Assumed()), a, b)
      ensures !a.Object? || !b.Object? ==> v == if a == b || SignedZeros(a, b) then Equal else Different
      ensures old(seen) <= seen && (v != Thrown ==> seen == old(seen))
      decreases AllPairs(h) - Assumed(), 7
    {
      hide Closed, AllPairs, JudgeObjects, Elements, SignedZeros, Bisimilar;
      if !a.Object? || !b.Object? { PrimitivesExact(h, lengthOf, Assumed(), a, b); }
      if StrictEqual(a, b) { return Equal; }
      if !a.Object? || !b.Object? {
        v := if PrimitiveEqual(a, b) then Equal else Different;
        return;
      }
      v := CompareObjects(a.ref, b.ref);
    }

    method CompareObjects(r: Ref, s: Ref) returns (v: Verdict)
      requires Closed(h) && r in h && s in h
      modifies this
      ensures v == JudgeObjects(h, lengthOf, old(Assumed()), r, s)
      ensures old(seen) <= seen && (v != Thrown ==> seen == old(seen))
      decreases AllPairs(h) - Assumed(), 6
    {
      assert NodeInHeap(h, h[r]) && NodeInHeap(h, h[s]) && (r, s) in AllPairs(h);
      hide Closed, AllPairs, JudgeNodes, Elements, NodeWithin, SizeField;
      var n, m := h[r], h[s];
      if n.ArrayNode? {
        if !m.ArrayNode? || |n.elems| != |m.elems| { return Different; }
      } else if m.ArrayNode? {
        return Different;
      } else if n.MapNode? || m.MapNode? {
        if !m.MapNode? || !StrictEqual(SizeField(n), SizeField(m)) { return Different; }
      } else if n.SetNode? || m.SetNode? {
        if !m.SetNode? || !StrictEqual(SizeField(n), SizeField(m)) { return Different; }
      }
      assert Admitted(n, m);
      hide Admitted;
      var found := OnStack(r, s);
      if found { return Equal; }
      ghost var before := Assumed();
      seen := seen + [(r, s)];
      assert Assumed() == before + {(r, s)} by { ElementsPush(old(seen), (r, s)); }
      v := CompareNodes(n, m);
      if v == Thrown { return; }
      seen := seen[..|seen| - 1];
      assert seen == old(seen);
    }

    /** The body of the comparison, once the pair is on the stack. */
    method CompareNodes(n: Node, m: Node) returns (v: Verdict)
      requires Closed(h) && NodeInHeap(h, n) && NodeInHeap(h, m) && Admitted(n, m)
      modifies this
      ensures v == JudgeNodes(h, lengthOf, old(Assumed()), n, m)
      ensures old(seen) <= seen && (v != Thrown ==> seen == old(seen))
      decreases AllPairs(h) - Assumed(), 12
    {
      hide Closed, AllPairs, Elements, JudgeLists, JudgeFields, JudgeRows, LeftRows, RightRows, SizeField;
      match m
      case ArrayNode(ys) =>
        v := CompareElements(n.elems, ys);
      case PlainNode(g) =>
        v := CompareFields(n.fields, g);
      case _ =>
        var rows := LeftRows(lengthOf, n, m);
        if rows.None? { return Thrown; }
        LeftReady(lengthOf, h.Keys, n, m);
        RightReady(h.Keys, m);
        RowsFit(rows.value, RightRows(m), if m.MapNode? then 2 else 1);
        v := CompareRows(rows.value, RightRows(m));
    }

    method CompareElements(xs: seq<Value>, ys: seq<Value>) returns (v: Verdict)
      requires Closed(h) && AllWithin(h.Keys, xs) && AllWithin(h.Keys, ys) && |xs| == |ys|
      modifies this
      ensures v == JudgeLists(h, lengthOf, old(Assumed()), xs, ys)
      ensures old(seen) <= seen && (v != Thrown ==> seen == old(seen))
      decreases AllPairs(h) - Assumed(), 8
    {
      hide Closed, AllPairs, Elements, Judge;
      assert xs[0..] == xs && ys[0..] == ys;
      for i := 0 to |xs|
        invariant seen == old(seen)
        invariant JudgeLists(h, lengthOf, Assumed(), xs, ys) == JudgeLists(h, lengthOf, Assumed(), xs[i..], ys[i..])
      {
        assert xs[i..][1..] == xs[i + 1..] && ys[i..][1..] == ys[i + 1..];
        v := Compare(xs[i], ys[i]);
        if v != Equal { return; }
      }
      return Equal;
    }

    method CompareFields(f: map<string, Value>, g: map<string, Value>) returns (v: Verdict)
      requires Closed(h) && NodeInHeap(h, PlainNode(f)) && NodeInHeap(h, PlainNode(g))
      modifies this
      ensures v == JudgeFields(h, lengthOf, old(Assumed()), f, g)
      ensures old(seen) <= seen && (v != Thrown ==> seen == old(seen))
      decreases AllPairs(h) - Assumed(), 9
    {
      hide Closed, AllPairs, Elements, JudgeKeys, InOrder, NodeWithin, Ascending;
      var ks := OrderedKeys(f);
      var ls := OrderedKeys(g);
      if |ks| != |ls| { return Different; }
      v := CompareByKey(f, g, ks, ls);
    }

    /** Key by key, up to the first key or value that differs. */
    method CompareByKey(f: map<string, Value>, g: map<string, Value>, ks: seq<string>, ls: seq<string>)
      returns (v: Verdict)
      requires Closed(h) && NodeInHeap(h, PlainNode(f)) && NodeInHeap(h, PlainNode(g))
      requires |ks| == |ls| && forall j | 0 <= j < |ks| :: ks[j] in f && ls[j] in g
      modifies this
      ensures v == JudgeKeys(h, lengthOf, old(Assumed()), f, g, ks, ls)
      ensures old(seen) <= seen && (v != Thrown ==> seen == old(seen))
      decreases AllPairs(h) - Assumed(), 8
    {
      hide Closed, AllPairs, Elements, Judge;
      assert ks[0..] == ks && ls[0..] == ls;
      for i := 0 to |ks|
        invariant seen == old(seen)
        invariant JudgeKeys(h, lengthOf, Assumed(), f, g, ks, ls) ==
                  JudgeKeys(h, lengthOf, Assumed(), f, g, ks[i..], ls[i..])
      {
        assert ks[i..][1..] == ks[i + 1..] && ls[i..][1..] == ls[i + 1..];
        if ks[i] != ls[i] { return Different; }
        v := Compare(f[ks[i]], g[ls[i]]);
        if v != Equal { return; }
      }
      return Equal;
    }

    /** The first unused row of `ys` that compares equal to `x`. */
    method FindMate(x: seq<Value>, ys: seq<seq<Value>>, used: seq<bool>) returns (v: Verdict, j: nat)
      requires Closed(h) && AllWithin(h.Keys, x) && RowsWithin(h.Keys, ys) && Wide(ys, |x|) && |used| == |ys|
      modifies this
      ensures (v, j) == JudgeMate(h, lengthOf, old(Assumed()), x, ys, used, 0)
      ensures old(seen) <= seen && (v != Thrown ==> seen == old(seen))
      decreases AllPairs(h) - Assumed(), 9
    {
      hide Closed, AllPairs, Elements, JudgeLists, AllWithin;
      j := 0;
      while j < |ys|
        invariant j <= |ys| && seen == old(seen)
        invariant JudgeMate(h, lengthOf, Assumed(), x, ys, used, 0) == JudgeMate(h, lengthOf, Assumed(), x, ys, used, j)
      {
        if !used[j] {
          v := CompareElements(x, ys[j]);
          if v != Different { return; }
        }
        j := j + 1;
      }
      v := Different;
    }

    /** Each row of `xs` in turn takes the first unused row of `ys` that compares equal. */
    method CompareRows(xs: seq<seq<Value>>, ys: seq<seq<Value>>) returns (v: Verdict)
      requires Closed(h) && RowsWithin(h.Keys, xs) && RowsWithin(h.Keys, ys) && Alike(xs, ys)
      modifies this
      ensures v == JudgeRows(h, lengthOf, old(Assumed()), xs, ys, NoneUsed(|ys|))
      ensures old(seen) <= seen && (v != Thrown ==> seen == old(seen))
      decreases AllPairs(h) - Assumed(), 10
    {
      hide Closed, AllPairs, Elements, JudgeMate, RowsWithin, Alike, AllWithin, Wide;
      var used := NoneUsed(|ys|);
      assert xs[0..] == xs;
      for i := 0 to |xs|
        invariant seen == old(seen) && |used| == |ys|
        invariant RowsWithin(h.Keys, xs[i..]) && Alike(xs[i..], ys)
        invariant JudgeRows(h, lengthOf, Assumed(), xs, ys, NoneUsed(|ys|)) ==
                  JudgeRows(h, lengthOf, Assumed(), xs[i..], ys, used)
      {
        SuffixReady(h.Keys, xs, ys, i);
        SuffixReady(h.Keys, xs, ys, i + 1);
        RowsTurn(h, lengthOf, Assumed(), xs, ys, used, i);
        var j;
        v, j := FindMate(xs[i], ys, used);
        if v != Equal { return; }
        used := used[j := true];
      }
      return Equal;
    }
  }

  /** Deep equality decides bisimilarity, on every finite graph of primitives, arrays, plain
      objects, Maps and Sets, cyclic or not, in which the pairs that meet are not confused; a pair
      it misjudges is called equal, or the comparison throws. */
  method DeepEqual(h: Heap, lengthOf: LengthOf, a: Value, b: Value) returns (v: Verdict)
    requires Closed(h) && InHeap(h, a) && InHeap(h, b)
    ensures v == Judge(h, lengthOf, {}, a, b)
    ensures !a.Object? || !b.Object? ==> v == if a == b || SignedZeros(a, b) then Equal else Different
    ensures var sc := ScopeOf(h, lengthOf, a, b);
            Sound(sc) && (Unconfused(sc) ==> v == if Bisimilar(h, a, b) then Equal else Different)
    ensures a.Object? && b.Object? && Misjudged(lengthOf, h[a.ref], h[b.ref]) ==>
              !Bisimilar(h, a, b) && v == if LeftRows(lengthOf, h[a.ref], h[b.ref]).None? then Thrown else Equal
  {
    hide Closed, Judge, Bisimilar, Sound, Unconfused, Misjudged, Meetings, LeftRows, SignedZeros;
    var c := new Comparison(h, lengthOf);
    v := c.Compare(a, b);
    JudgeDecides(h, lengthOf, a, b);
    if a.Object? && b.Object? && Misjudged(lengthOf, h[a.ref], h[b.ref]) {
      MisjudgedWrong(h, lengthOf, a.ref, b.ref);
    }
  }
}
