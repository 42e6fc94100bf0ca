/** The verdict of the deep comparison as a function of the graph, the two values and the pairs
    assumed equal; and what a verdict means. */
module Judgement {
  import opened Values
  import opened Bisimulation
  import opened Matching
  import opened Lexicographic
  import opened Similarity
  import Strings = Text

  datatype Verdict = Equal | Different | Thrown

  // ---------- the verdict ----------

  ghost function Judge(h: Heap, lengthOf: LengthOf, seen: Relation, a: Value, b: Value): (v: Verdict)
    requires Closed(h) && InHeap(h, a) && InHeap(h, b)
    decreases AllPairs(h) - seen, 7, 0
  {
    if StrictEqual(a, b) then Equal
    else if !a.Object? || !b.Object? then (if PrimitiveEqual(a, b) then Equal else Different)
    else JudgeObjects(h, lengthOf, seen, a.ref, b.ref)
  }

  /** A pair already seen is assumed equal; otherwise it is, while its contents are compared. */
  ghost function JudgeObjects(h: Heap, lengthOf: LengthOf, seen: Relation, r: Ref, s: Ref): (v: Verdict)
    requires Closed(h) && r in h && s in h
    decreases AllPairs(h) - seen, 6, 0
  {
    if !Admitted(h[r], h[s]) then Different
    else if (r, s) in seen then Equal
    else
      assert NodeInHeap(h, h[r]) && NodeInHeap(h, h[s]) && (r, s) in AllPairs(h);
      JudgeNodes(h, lengthOf, seen + {(r, s)}, h[r], h[s])
  }

  ghost function JudgeNodes(h: Heap, lengthOf: LengthOf, seen: Relation, n: Node, m: Node): (v: Verdict)
    requires Closed(h) && NodeInHeap(h, n) && NodeInHeap(h, m) && Admitted(n, m)
    decreases AllPairs(h) - seen, 12, 0
  {
    match m
    case ArrayNode(ys) => JudgeLists(h, lengthOf, seen, n.elems, ys)
    case PlainNode(g) => JudgeFields(h, lengthOf, seen, n.fields, g)
    case _ =>
      var rows := LeftRows(lengthOf, n, m);
      if rows.None? then Thrown
      else
        LeftReady(lengthOf, h.Keys, n, m);
        RightReady(h.Keys, m);
        JudgeRows(h, lengthOf, seen, rows.value, RightRows(m), NoneUsed(|RightRows(m)|))
  }

  /** Position by position, up to the first pair that is not equal. */
  ghost function JudgeLists(h: Heap, lengthOf: LengthOf, seen: Relation, xs: seq<Value>, ys: seq<Value>): (v: Verdict)
    requires Closed(h) && AllWithin(h.Keys, xs) && AllWithin(h.Keys, ys) && |xs| == |ys|
    decreases AllPairs(h) - seen, 8, |xs|
  {
    if xs == [] then Equal
    else
      var v := Judge(h, lengthOf, seen, xs[0], ys[0]);
      if v != Equal then v else JudgeLists(h, lengthOf, seen, xs[1..], ys[1..])
  }

  /** The keys in order, each with its value, up to the first that differs. */
  ghost function JudgeKeys(h: Heap, lengthOf: LengthOf, seen: Relation, f: map<string, Value>, g: map<string, Value>,
                           ks: seq<string>, ls: seq<string>): (v: Verdict)
    requires Closed(h) && NodeInHeap(h, PlainNode(f)) && NodeInHeap(h, PlainNode(g))
    requires |ks| == |ls| && (forall j | 0 <= j < |ks| :: ks[j] in f && ls[j] in g)
    decreases AllPairs(h) - seen, 8, |ks|
  {
    if ks == [] then Equal
    else if ks[0] != ls[0] then Different
    else
      var v := Judge(h, lengthOf, seen, f[ks[0]], g[ls[0]]);
      if v != Equal then v else JudgeKeys(h, lengthOf, seen, f, g, ks[1..], ls[1..])
  }

  ghost function JudgeFields(h: Heap, lengthOf: LengthOf, seen: Relation, f: map<string, Value>, g: map<string, Value>)
    : (v: Verdict)
    requires Closed(h) && NodeInHeap(h, PlainNode(f)) && NodeInHeap(h, PlainNode(g))
    decreases AllPairs(h) - seen, 9, 0
  {
    var ks, ls := InOrder(f.Keys), InOrder(g.Keys);
    assert (forall j | 0 <= j < |ks| :: ks[j] in ks) && (forall j | 0 <= j < |ls| :: ls[j] in ls);
    if |ks| != |ls| then Different else JudgeKeys(h, lengthOf, seen, f, g, ks, ls)
  }

  function NoneUsed(n: nat): (used: seq<bool>)
    ensures |used| == n && forall j | 0 <= j < n :: !used[j]
  {
    seq(n, _ => false)
  }

  /** The first unused row from `j` on that compares equal to `x`. */
  ghost function JudgeMate(h: Heap, lengthOf: LengthOf, seen: Relation, x: seq<Value>, ys: seq<seq<Value>>,
                           used: seq<bool>, j: nat): (m: (Verdict, nat))
    requires Closed(h) && AllWithin(h.Keys, x) && RowsWithin(h.Keys, ys) && Wide(ys, |x|)
    requires |used| == |ys| && j <= |ys|
    ensures m.0 == Equal ==> j <= m.1 < |ys| && !used[m.1]
    decreases AllPairs(h) - seen, 9, |ys| - j
  {
    if j == |ys| then (Different, j)
    else if used[j] then JudgeMate(h, lengthOf, seen, x, ys, used, j + 1)
    else
      var v := JudgeLists(h, lengthOf, seen, x, ys[j]);
      if v != Different then (v, j) else JudgeMate(h, lengthOf, seen, x, ys, used, j + 1)
  }

  /** Each row in turn takes the first unused row that compares equal. */
  ghost function JudgeRows(h: Heap, lengthOf: LengthOf, seen: Relation, xs: seq<seq<Value>>, ys: seq<seq<Value>>,
                           used: seq<bool>): (v: Verdict)
    requires Closed(h) && RowsWithin(h.Keys, xs) && RowsWithin(h.Keys, ys) && Alike(xs, ys)
    requires |used| == |ys|
    decreases AllPairs(h) - seen, 10, |xs|
  {
    if xs == [] then Equal
    else
      var (v, j) := JudgeMate(h, lengthOf, seen, xs[0], ys, used, 0);
      if v != Equal then v else JudgeRows(h, lengthOf, seen, xs[1..], ys, used[j := true])
  }

  /** All rows have one width. */
  predicate Alike(xs: seq<seq<Value>>, ys: seq<seq<Value>>) {
    forall i | 0 <= i < |xs| :: Wide(ys, |xs[i]|)
  }

  /** Everything before position `i` is equal, and it is not, or it is the end. */
  ghost predicate FirstUnequal(h: Heap, lengthOf: LengthOf, seen: Relation, xs: seq<Value>, ys: seq<Value>, i: nat)
    requires Closed(h) && AllWithin(h.Keys, xs) && AllWithin(h.Keys, ys) && |xs| == |ys|
  {
    && i <= |xs| && (forall j | 0 <= j < i :: Judge(h, lengthOf, seen, xs[j], ys[j]) == Equal)
    && (i < |xs| ==> Judge(h, lengthOf, seen, xs[i], ys[i]) != Equal)
  }

  /** The first pair that is not equal decides, whatever comes after it. */
  lemma {:induction false} FirstDecides(h: Heap, lengthOf: LengthOf, seen: Relation, xs: seq<Value>, ys: seq<Value>,
                                        i: nat)
    requires Closed(h) && AllWithin(h.Keys, xs) && AllWithin(h.Keys, ys) && |xs| == |ys|
    requires FirstUnequal(h, lengthOf, seen, xs, ys, i)
    ensures JudgeLists(h, lengthOf, seen, xs, ys) ==
            if i == |xs| then Equal else Judge(h, lengthOf, seen, xs[i], ys[i])
    decreases |xs|
  {
    hide Closed, Judge, AllPairs;
    if i > 0 {
      assert forall j | 0 <= j < |xs| - 1 :: xs[1..][j] == xs[j + 1] && ys[1..][j] == ys[j + 1];
      FirstDecides(h, lengthOf, seen, xs[1..], ys[1..], i - 1);
    }
  }

  /** The same of fields, in the order of their keys; a key that the other side does not have in
      its place is a difference. */
  lemma {:induction false} FirstKeyDecides(h: Heap, lengthOf: LengthOf, seen: Relation, f: map<string, Value>,
                                           g: map<string, Value>, ks: seq<string>, ls: seq<string>, i: nat)
    requires Closed(h) && NodeInHeap(h, PlainNode(f)) && NodeInHeap(h, PlainNode(g))
    requires |ks| == |ls| && i <= |ks| && (forall j | 0 <= j < |ks| :: ks[j] in f && ls[j] in g)
    requires forall j | 0 <= j < i :: ks[j] == ls[j] && Judge(h, lengthOf, seen, f[ks[j]], g[ls[j]]) == Equal
    requires i < |ks| ==> ks[i] != ls[i] || Judge(h, lengthOf, seen, f[ks[i]], g[ls[i]]) != Equal
    ensures JudgeKeys(h, lengthOf, seen, f, g, ks, ls) ==
            if i == |ks| then Equal else if ks[i] != ls[i] then Different
            else Judge(h, lengthOf, seen, f[ks[i]], g[ls[i]])
    decreases |ks|
  {
    hide Closed, Judge, AllPairs;
    if i > 0 {
      assert forall j | 0 <= j < |ks| - 1 :: ks[1..][j] == ks[j + 1] && ls[1..][j] == ls[j + 1];
      FirstKeyDecides(h, lengthOf, seen, f, g, ks[1..], ls[1..], i - 1);
    }
  }

  lemma SuffixReady(refs: set<Ref>, xs: seq<seq<Value>>, ys: seq<seq<Value>>, i: nat)
    requires RowsWithin(refs, xs) && Alike(xs, ys) && i <= |xs|
    ensures RowsWithin(refs, xs[i..]) && Alike(xs[i..], ys)
    ensures i < |xs| ==> AllWithin(refs, xs[i]) && Wide(ys, |xs[i]|)
  {
    hide AllWithin, Wide;
  }

  /** One turn of the matching: row `i` takes its mate and the rest goes on. */
  lemma RowsTurn(h: Heap, lengthOf: LengthOf, seen: Relation, xs: seq<seq<Value>>, ys: seq<seq<Value>>,
                 used: seq<bool>, i: nat)
    requires Closed(h) && RowsWithin(h.Keys, xs) && RowsWithin(h.Keys, ys) && Alike(xs, ys)
    requires |used| == |ys| && i < |xs|
    requires RowsWithin(h.Keys, xs[i..]) && Alike(xs[i..], ys)
    requires RowsWithin(h.Keys, xs[i + 1..]) && Alike(xs[i + 1..], ys)
    requires AllWithin(h.Keys, xs[i]) && Wide(ys, |xs[i]|)
    ensures var (v, j) := JudgeMate(h, lengthOf, seen, xs[i], ys, used, 0);
            JudgeRows(h, lengthOf, seen, xs[i..], ys, used) ==
            if v != Equal then v else JudgeRows(h, lengthOf, seen, xs[i + 1..], ys, used[j := true])
  {
    hide Closed, RowsWithin, Alike, AllWithin, Wide, JudgeMate, AllPairs;
    assert xs[i..][0] == xs[i] && xs[i..][1..] == xs[i + 1..];
  }

  // ---------- what a verdict under assumptions tells ----------

  /** Whatever depth the assumed pairs survive, `a` and `b` survive too. */
  ghost predicate Follows(sc: Scope, assumed: Relation, a: Value, b: Value)
    requires Sound(sc)
  {
    forall k: nat :: assumed <= Level(sc, k) ==> Related(Level(sc, k), a, b)
  }

  ghost predicate AllFollow(sc: Scope, assumed: Relation, xs: seq<Value>, ys: seq<Value>)
    requires Sound(sc)
  {
    |xs| == |ys| && forall i | 0 <= i < |xs| :: Follows(sc, assumed, xs[i], ys[i])
  }

  ghost predicate FieldFollows(sc: Scope, assumed: Relation, f: map<string, Value>, g: map<string, Value>, k: string)
    requires Sound(sc)
  {
    k in f && k in g && Follows(sc, assumed, f[k], g[k])
  }

  ghost predicate RowsFollow(sc: Scope, assumed: Relation, xs: seq<seq<Value>>, ys: seq<seq<Value>>, p: seq<nat>)
    requires Sound(sc)
  {
    |p| == |xs| && Injection(p, |ys|) && forall i | 0 <= i < |xs| :: AllFollow(sc, assumed, xs[i], ys[p[i]])
  }

  ghost predicate NodesFollow(sc: Scope, assumed: Relation, n: Node, m: Node)
    requires Sound(sc)
  {
    forall k: nat :: assumed <= Level(sc, k) ==> LooselyRelated(sc.lengthOf, Level(sc, k), n, m)
  }

  /** Assuming the pair itself while comparing its children costs nothing. */
  lemma {:induction false} Discharge(sc: Scope, assumed: Relation, p: (Ref, Ref), k: nat)
    requires Sound(sc) && p in sc.meet && p.0 in sc.h && p.1 in sc.h
    requires NodesFollow(sc, assumed + {p}, sc.h[p.0], sc.h[p.1])
    requires assumed <= Level(sc, k)
    ensures p in Level(sc, k)
  {
    hide LooselyRelated, Sound;
    if k > 0 {
      forall q | q in assumed ensures q in Level(sc, k - 1) { LevelStep(sc, k - 1, q); }
      Discharge(sc, assumed, p, k - 1);
      assert assumed + {p} <= Level(sc, k - 1);
      LevelStep(sc, k - 1, p);
    }
  }

  lemma FollowsNode(sc: Scope, assumed: Relation, p: (Ref, Ref))
    requires Sound(sc) && p in sc.meet && p.0 in sc.h && p.1 in sc.h
    requires NodesFollow(sc, assumed + {p}, sc.h[p.0], sc.h[p.1])
    ensures Follows(sc, assumed, Object(p.0), Object(p.1))
  {
    hide NodesFollow, Level, Sound;
    forall k: nat | assumed <= Level(sc, k) ensures p in Level(sc, k) {
      Discharge(sc, assumed, p, k);
    }
  }

  lemma {:induction false} SelfInLevel(sc: Scope, r: Ref, k: nat)
    requires Sound(sc) && (r, r) in sc.meet
    ensures (r, r) in Level(sc, k)
  {
    hide Sound, LooselyRelated;
    if k > 0 {
      SelfInLevel(sc, r, k - 1);
      LevelStep(sc, k - 1, (r, r));
    }
  }

  lemma FollowsSelf(sc: Scope, assumed: Relation, a: Value)
    requires Sound(sc) && ValuesMeet(sc.meet, a, a)
    ensures a == Numeric(Values.NaN) || Follows(sc, assumed, a, a)
  {
    hide Level, Sound;
    if a.Object? {
      forall k: nat ensures Related(Level(sc, k), a, a) { SelfInLevel(sc, a.ref, k); }
    }
  }

  lemma FollowsPrimitive(sc: Scope, assumed: Relation, a: Value, b: Value)
    requires Sound(sc) && (!a.Object? || !b.Object?)
    ensures PrimitiveEqual(a, b) ==> Follows(sc, assumed, a, b)
    ensures Related(Largest(sc.h), a, b) <==> PrimitiveEqual(a, b)
  {
    hide Level, Largest, Sound;
  }

  lemma FollowsAssumed(sc: Scope, assumed: Relation, r: Ref, s: Ref)
    requires Sound(sc) && (r, s) in assumed
    ensures Follows(sc, assumed, Object(r), Object(s))
  {
    hide Level, Sound;
  }

  lemma ElementsFollow(sc: Scope, assumed: Relation, xs: seq<Value>, ys: seq<Value>)
    requires Sound(sc) && AllFollow(sc, assumed, xs, ys)
    ensures NodesFollow(sc, assumed, ArrayNode(xs), ArrayNode(ys))
  {
    hide Level, Sound;
  }

  lemma PlainFollow(sc: Scope, assumed: Relation, f: map<string, Value>, g: map<string, Value>)
    requires Sound(sc) && f.Keys == g.Keys && forall k | k in f :: FieldFollows(sc, assumed, f, g, k)
    ensures NodesFollow(sc, assumed, PlainNode(f), PlainNode(g))
  {
    hide Level, Sound, Related;
    forall k: nat, x | assumed <= Level(sc, k) && x in f ensures Related(Level(sc, k), f[x], g[x]) {
      assert FieldFollows(sc, assumed, f, g, x);
    }
  }

  lemma ContainersFollow(sc: Scope, assumed: Relation, n: Node, m: Node, p: seq<nat>)
    requires Sound(sc) && Admitted(n, m) && IsContainer(m) && LeftRows(sc.lengthOf, n, m).Some?
    requires RowsFollow(sc, assumed, LeftRows(sc.lengthOf, n, m).value, RightRows(m), p)
    ensures NodesFollow(sc, assumed, n, m)
  {
    hide Level, LeftRows, RightRows, Related, SizeField, Sound;
    var xs, ys := LeftRows(sc.lengthOf, n, m).value, RightRows(m);
    forall k: nat | assumed <= Level(sc, k) ensures RowsInto(Level(sc, k), xs, ys, p) {
      forall i | 0 <= i < |xs| ensures AllRelated(Level(sc, k), xs[i], ys[p[i]]) {
        assert AllFollow(sc, assumed, xs[i], ys[p[i]]);
      }
    }
  }

  // ---------- when a different verdict can be trusted ----------

  predicate Flat(xs: seq<Value>) {
    forall i | 0 <= i < |xs| :: !xs[i].Object?
  }

  predicate FlatRows(xs: seq<seq<Value>>) {
    forall i | 0 <= i < |xs| :: Flat(xs[i])
  }

  /** The scope is free of confusion and only true assumptions were made. */
  ghost predicate Trusted(sc: Scope, assumed: Relation)
    requires Sound(sc)
  {
    Unconfused(sc) && assumed <= Largest(sc.h)
  }

  /** With only true assumptions, what follows is true. */
  lemma FollowsLargest(sc: Scope, assumed: Relation, a: Value, b: Value)
    requires Sound(sc) && Trusted(sc, assumed) && assumed <= sc.meet
    requires Follows(sc, assumed, a, b)
    ensures Related(Largest(sc.h), a, b)
  {
    hide Level, Largest, Unconfused, Sound;
    var k := LevelIsLargest(sc);
    assert assumed <= Level(sc, k);
  }

  lemma FlatFollows(sc: Scope, assumed: Relation, a: Value, b: Value)
    requires Sound(sc) && assumed <= sc.meet && Follows(sc, assumed, a, b) && (!a.Object? || !b.Object?)
    ensures Related(Largest(sc.h), a, b)
  {
    hide Sound;
    assert assumed <= Level(sc, 0);
  }

  lemma AllFollowLargest(sc: Scope, assumed: Relation, xs: seq<Value>, ys: seq<Value>)
    requires Sound(sc) && assumed <= sc.meet && AllFollow(sc, assumed, xs, ys)
    requires Trusted(sc, assumed) || Flat(xs)
    ensures AllRelated(Largest(sc.h), xs, ys)
  {
    hide Follows, Trusted, Largest, Related, Sound;
    forall i | 0 <= i < |xs| ensures Related(Largest(sc.h), xs[i], ys[i]) {
      if Trusted(sc, assumed) {
        FollowsLargest(sc, assumed, xs[i], ys[i]);
      } else {
        FlatFollows(sc, assumed, xs[i], ys[i]);
      }
    }
  }

  /** Rows related by an equivalence: a mate of a mate of a mate is a mate. */
  lemma RowsDifunctional(h: Heap, x: seq<Value>, y: seq<Value>, u: seq<Value>, v: seq<Value>)
    requires AllRelated(Largest(h), x, u) && AllRelated(Largest(h), x, v) && AllRelated(Largest(h), y, u)
    ensures AllRelated(Largest(h), y, v)
  {
    hide Largest;
    forall i | 0 <= i < |y| ensures Related(Largest(h), y[i], v[i]) {
      Symmetric(h, x[i], u[i]);
      Transitive(h, y[i], u[i], x[i]);
      Transitive(h, y[i], x[i], v[i]);
    }
  }

  ghost function RowRelation(h: Heap, xs: seq<seq<Value>>, ys: seq<seq<Value>>): (rel: (int, int) -> bool) {
    (i: int, j: int) => 0 <= i < |xs| && 0 <= j < |ys| && AllRelated(Largest(h), xs[i], ys[j])
  }

  lemma RowRelationDifunctional(h: Heap, xs: seq<seq<Value>>, ys: seq<seq<Value>>)
    ensures Difunctional(|xs|, |ys|, RowRelation(h, xs, ys))
  {
    hide AllRelated;
    var rel := RowRelation(h, xs, ys);
    forall i, k, j, l | 0 <= i < |xs| && 0 <= k < |xs| && 0 <= j < |ys| && 0 <= l < |ys|
      && rel(i, j) && rel(i, l) && rel(k, j)
      ensures rel(k, l)
    {
      RowsDifunctional(h, xs[i], xs[k], ys[j], ys[l]);
    }
  }

  lemma LargestNodes(h: Heap, r: Ref, s: Ref)
    requires (r, s) in Largest(h)
    ensures r in h && s in h && NodesRelated(Largest(h), h[r], h[s])
  {
    hide NodesRelated, Largest;
    LargestIsBisimulation(h);
  }

  lemma NotAdmitted(h: Heap, r: Ref, s: Ref)
    requires r in h && s in h && !Admitted(h[r], h[s])
    ensures (r, s) !in Largest(h)
  {
    hide NodesRelated, Largest, Admitted;
    if (r, s) in Largest(h) {
      LargestNodes(h, r, s);
      RelatedAdmitted(Largest(h), h[r], h[s]);
    }
  }

  // ---------- the meaning of each verdict ----------

  ghost predicate Means(sc: Scope, seen: Relation, a: Value, b: Value, v: Verdict)
    requires Sound(sc)
  {
    && (v == Equal ==> Follows(sc, seen, a, b))
    && (v == Different && (Trusted(sc, seen) || !a.Object? || !b.Object?) ==> !Related(Largest(sc.h), a, b))
    && (v == Thrown ==> !Unconfused(sc) && a.Object? && b.Object?)
  }

  /** Under any assumed pairs, an equal verdict follows from the assumptions; a different one is
      true whenever the assumptions are and nothing is confused; and only confusion throws. */
  lemma {:induction false} JudgeMeans(sc: Scope, seen: Relation, a: Value, b: Value)
    requires Sound(sc) && seen <= sc.meet && InHeap(sc.h, a) && InHeap(sc.h, b) && ValuesMeet(sc.meet, a, b)
    ensures Means(sc, seen, a, b, Judge(sc.h, sc.lengthOf, seen, a, b))
    decreases AllPairs(sc.h) - seen, 7, 0
  {
    hide Follows, Trusted, Largest, Unconfused, Sound, JudgeObjects, AllPairs;
    if StrictEqual(a, b) {
      if a.Object? { FollowsSelf(sc, seen, a); } else { FollowsPrimitive(sc, seen, a, b); }
    } else if !a.Object? || !b.Object? {
      FollowsPrimitive(sc, seen, a, b);
    } else {
      ObjectsMean(sc, seen, a.ref, b.ref);
    }
  }

  lemma {:induction false} ObjectsMean(sc: Scope, seen: Relation, r: Ref, s: Ref)
    requires Sound(sc) && seen <= sc.meet && r in sc.h && s in sc.h && r != s && (r, s) in sc.meet
    ensures Means(sc, seen, Object(r), Object(s), JudgeObjects(sc.h, sc.lengthOf, seen, r, s))
    ensures seen == {} ==> Settled(sc.lengthOf, sc.h, sc.h[r], sc.h[s], JudgeObjects(sc.h, sc.lengthOf, seen, r, s))
    decreases AllPairs(sc.h) - seen, 6, 0
  {
    hide Follows, Largest, Unconfused, JudgeNodes, ContainerVerdict, NodesFollow, Level, NodesMeet, Throws;
    var n, m := sc.h[r], sc.h[s];
    if !Admitted(n, m) {
      NotAdmitted(sc.h, r, s);
    } else if (r, s) in seen {
      FollowsAssumed(sc, seen, r, s);
    } else {
      hide Admitted;
      assert MeetsAt(sc, (r, s));
      assert NodeInHeap(sc.h, n) && NodeInHeap(sc.h, m) && (r, s) in AllPairs(sc.h);
      hide Sound, Closed, NodeInHeap, AllPairs;
      var more := seen + {(r, s)};
      NodesMean(sc, more, n, m);
      var v := JudgeNodes(sc.h, sc.lengthOf, more, n, m);
      if v == Equal {
        FollowsNode(sc, seen, (r, s));
      } else if v == Different {
        if (r, s) in Largest(sc.h) { LargestNodes(sc.h, r, s); }
      } else {
        ThrownConfused(sc, (r, s));
      }
    }
  }

  lemma ThrownConfused(sc: Scope, p: (Ref, Ref))
    requires Sound(sc) && p in sc.meet && p.0 in sc.h && p.1 in sc.h
    ensures Unconfused(sc) ==> !Throws(sc.lengthOf, sc.h[p.0], sc.h[p.1])
  {
    hide Throws, Sound;
    if Unconfused(sc) { assert !ThrowsAt(sc, p); }
  }

  /** Rows of primitives are told apart exactly. */
  ghost predicate FlatVerdict(h: Heap, xs: seq<seq<Value>>, ys: seq<seq<Value>>, v: Verdict) {
    FlatRows(xs) ==> v == if Into(Largest(h), xs, ys) then Equal else Different
  }

  ghost predicate ContainerVerdict(lengthOf: LengthOf, h: Heap, n: Node, m: Node, v: Verdict) {
    match LeftRows(lengthOf, n, m)
    case None => v == Thrown
    case Some(rows) => FlatVerdict(h, rows, RightRows(m), v)
  }

  /** What is known of a verdict on two nodes reached without assumptions, confused or not. */
  ghost predicate Settled(lengthOf: LengthOf, h: Heap, n: Node, m: Node, v: Verdict) {
    if Admitted(n, m) then IsContainer(m) ==> ContainerVerdict(lengthOf, h, n, m, v) else v == Different
  }

  lemma {:induction false} NodesMean(sc: Scope, seen: Relation, n: Node, m: Node)
    requires Sound(sc) && seen <= sc.meet && NodeInHeap(sc.h, n) && NodeInHeap(sc.h, m) && Admitted(n, m)
    requires NodesMeet(sc.lengthOf, sc.meet, n, m)
    ensures var v := JudgeNodes(sc.h, sc.lengthOf, seen, n, m);
            && (v == Equal ==> NodesFollow(sc, seen, n, m))
            && (v == Different && Trusted(sc, seen) ==> !NodesRelated(Largest(sc.h), n, m))
            && (v == Thrown && Unconfused(sc) ==> Throws(sc.lengthOf, n, m))
            && (IsContainer(m) ==> ContainerVerdict(sc.lengthOf, sc.h, n, m, v))
    decreases AllPairs(sc.h) - seen, 12, 0
  {
    assert Closed(sc.h);
    hide Closed, Follows, Trusted, Largest, Unconfused, Level, NodesFollow, Sound, Related, LeftRows, RightRows,
      SizeField, ContainerVerdict, Throws, RowsRelated, AllPairs, JudgeLists, JudgeFields, JudgeRows, ListsMeet,
      FieldsMeet;
    match m
    case ArrayNode(ys) =>
      ListsMean(sc, seen, n.elems, ys);
      if JudgeLists(sc.h, sc.lengthOf, seen, n.elems, ys) == Equal { ElementsFollow(sc, seen, n.elems, ys); }
    case PlainNode(g) =>
      FieldsMean(sc, seen, n.fields, g);
    case _ =>
      ContainersMean(sc, seen, n, m);
  }

  lemma {:induction false} ContainersMean(sc: Scope, seen: Relation, n: Node, m: Node)
    requires Sound(sc) && seen <= sc.meet && NodeInHeap(sc.h, n) && NodeInHeap(sc.h, m) && Admitted(n, m)
    requires NodesMeet(sc.lengthOf, sc.meet, n, m) && IsContainer(m)
    ensures var v := JudgeNodes(sc.h, sc.lengthOf, seen, n, m);
            && (v == Equal ==> NodesFollow(sc, seen, n, m))
            && (v == Different && Trusted(sc, seen) ==> !NodesRelated(Largest(sc.h), n, m))
            && (v == Thrown && Unconfused(sc) ==> Throws(sc.lengthOf, n, m))
            && ContainerVerdict(sc.lengthOf, sc.h, n, m, v)
    decreases AllPairs(sc.h) - seen, 11, 0
  {
    assert Closed(sc.h);
    hide Closed, Follows, Trusted, Largest, Unconfused, Level, NodesFollow, Sound, LeftRows, RightRows, Admitted,
      NodeWithin, NodesRelated, RowsFollow, RowsRelated, RowsWithin, Wide, JudgeRows, AllPairs, JudgeLists, JudgeFields;
    var rows := LeftRows(sc.lengthOf, n, m);
    if rows.Some? {
      LeftReady(sc.lengthOf, sc.h.Keys, n, m);
      RightReady(sc.h.Keys, m);
      RowsFit(rows.value, RightRows(m), if m.MapNode? then 2 else 1);
      var xs, ys := rows.value, RightRows(m);
      AllRowsMean(sc, seen, xs, ys);
      var v := JudgeRows(sc.h, sc.lengthOf, seen, xs, ys, NoneUsed(|ys|));
      if v == Equal {
        var p :| RowsFollow(sc, seen, xs, ys, p);
        ContainersFollow(sc, seen, n, m, p);
      } else if v == Different {
        RelatedRows(sc.lengthOf, Largest(sc.h), n, m);
      }
    }
  }

  lemma RowsFit(xs: seq<seq<Value>>, ys: seq<seq<Value>>, w: nat)
    requires Wide(xs, w) && Wide(ys, w)
    ensures Alike(xs, ys)
  {
  }

  lemma NothingTaken(h: Heap, lengthOf: LengthOf, seen: Relation, ys: seq<seq<Value>>, used: seq<bool>)
    requires Closed(h) && RowsWithin(h.Keys, ys) && |used| == |ys|
    ensures JudgeRows(h, lengthOf, seen, [], ys, used) == Equal
  {
    hide Closed, AllPairs;
  }

  lemma {:induction false} ListsMean(sc: Scope, seen: Relation, xs: seq<Value>, ys: seq<Value>)
    requires Sound(sc) && seen <= sc.meet && AllWithin(sc.h.Keys, xs) && AllWithin(sc.h.Keys, ys) && |xs| == |ys|
    requires ListsMeet(sc.meet, xs, ys)
    ensures var v := JudgeLists(sc.h, sc.lengthOf, seen, xs, ys);
            && (v == Equal ==> AllFollow(sc, seen, xs, ys))
            && (v == Different && (Trusted(sc, seen) || Flat(xs)) ==> !AllRelated(Largest(sc.h), xs, ys))
            && (v == Thrown ==> !Unconfused(sc) && !Flat(xs))
    decreases AllPairs(sc.h) - seen, 8, |xs|
  {
    assert Closed(sc.h);
    hide Closed, Follows, Trusted, Largest, Unconfused, Sound, Related, Judge, AllPairs;
    if xs != [] {
      assert ValuesMeet(sc.meet, xs[0], ys[0]);
      JudgeMeans(sc, seen, xs[0], ys[0]);
      ListsMean(sc, seen, xs[1..], ys[1..]);
      if AllFollow(sc, seen, xs[1..], ys[1..]) && Follows(sc, seen, xs[0], ys[0]) {
        forall i | 0 <= i < |xs| ensures Follows(sc, seen, xs[i], ys[i]) {
          if i > 0 { assert xs[i] == xs[1..][i - 1] && ys[i] == ys[1..][i - 1]; }
        }
      }
      if AllRelated(Largest(sc.h), xs, ys) {
        assert AllRelated(Largest(sc.h), xs[1..], ys[1..]);
      }
    }
  }

  lemma {:induction false} KeysMean(sc: Scope, seen: Relation, f: map<string, Value>, g: map<string, Value>,
                                    ks: seq<string>, ls: seq<string>)
    requires Sound(sc) && seen <= sc.meet && NodeInHeap(sc.h, PlainNode(f)) && NodeInHeap(sc.h, PlainNode(g))
    requires FieldsMeet(sc.meet, f, g)
    requires |ks| == |ls| && (forall j | 0 <= j < |ks| :: ks[j] in f && ls[j] in g)
    ensures var v := JudgeKeys(sc.h, sc.lengthOf, seen, f, g, ks, ls);
            && (v == Equal ==> ks == ls && forall j | 0 <= j < |ks| :: FieldFollows(sc, seen, f, g, ks[j]))
            && (v == Different && ks == ls && Trusted(sc, seen) ==>
                  exists k :: k in f && k in g && !Related(Largest(sc.h), f[k], g[k]))
            && (v == Thrown ==> !Unconfused(sc))
    decreases AllPairs(sc.h) - seen, 8, |ks|
  {
    assert Closed(sc.h);
    hide Closed, Follows, Trusted, Largest, Unconfused, Sound, Related, Judge, AllPairs;
    if ks != [] && ks[0] == ls[0] {
      assert ValuesMeet(sc.meet, f[ks[0]], g[ls[0]]);
      JudgeMeans(sc, seen, f[ks[0]], g[ls[0]]);
      KeysMean(sc, seen, f, g, ks[1..], ls[1..]);
      assert ks == [ks[0]] + ks[1..] && ls == [ls[0]] + ls[1..];
      if JudgeKeys(sc.h, sc.lengthOf, seen, f, g, ks, ls) == Equal {
        forall j | 0 <= j < |ks| ensures FieldFollows(sc, seen, f, g, ks[j]) {
          if j > 0 { assert ks[j] == ks[1..][j - 1]; }
        }
      }
    }
  }

  lemma KeysAgree(f: map<string, Value>, g: map<string, Value>)
    ensures InOrder(f.Keys) == InOrder(g.Keys) <==> f.Keys == g.Keys
  {
    hide InOrder;
    if InOrder(f.Keys) == InOrder(g.Keys) {
      assert forall k :: k in f <==> k in g;
    }
  }

  lemma KeysFollow(sc: Scope, seen: Relation, f: map<string, Value>, g: map<string, Value>, ks: seq<string>)
    requires Sound(sc) && f.Keys == g.Keys && (forall k :: k in ks <==> k in f)
    requires forall j | 0 <= j < |ks| :: FieldFollows(sc, seen, f, g, ks[j])
    ensures NodesFollow(sc, seen, PlainNode(f), PlainNode(g))
  {
    hide FieldFollows, NodesFollow, Sound;
    forall k | k in f ensures FieldFollows(sc, seen, f, g, k) {
      var j :| 0 <= j < |ks| && ks[j] == k;
    }
    PlainFollow(sc, seen, f, g);
  }

  lemma {:induction false} FieldsMean(sc: Scope, seen: Relation, f: map<string, Value>, g: map<string, Value>)
    requires Sound(sc) && seen <= sc.meet && NodeInHeap(sc.h, PlainNode(f)) && NodeInHeap(sc.h, PlainNode(g))
    requires FieldsMeet(sc.meet, f, g)
    ensures var v := JudgeFields(sc.h, sc.lengthOf, seen, f, g);
            && (v == Equal ==> NodesFollow(sc, seen, PlainNode(f), PlainNode(g)))
            && (v == Different && Trusted(sc, seen) ==> !FieldsRelated(Largest(sc.h), f, g))
            && (v == Thrown ==> !Unconfused(sc))
    decreases AllPairs(sc.h) - seen, 9, 0
  {
    assert Closed(sc.h);
    hide Closed, Follows, Trusted, Largest, Unconfused, Sound, Related, NodesFollow, InOrder, AllPairs, JudgeKeys,
      FieldsMeet, FieldFollows, NodeWithin, Ascending;
    var ks, ls := InOrder(f.Keys), InOrder(g.Keys);
    assert (forall j | 0 <= j < |ks| :: ks[j] in ks) && (forall j | 0 <= j < |ls| :: ls[j] in ls);
    KeysAgree(f, g);
    if |ks| == |ls| {
      KeysMean(sc, seen, f, g, ks, ls);
      if JudgeKeys(sc.h, sc.lengthOf, seen, f, g, ks, ls) == Equal { KeysFollow(sc, seen, f, g, ks); }
    }
  }

  predicate RowMeets(meet: Relation, x: seq<Value>, ys: seq<seq<Value>>) {
    forall l | 0 <= l < |ys| :: ListsMeet(meet, x, ys[l])
  }

  /** From `j` on no unused row is a mate of `x`. */
  ghost predicate Mateless(h: Heap, x: seq<Value>, ys: seq<seq<Value>>, used: seq<bool>, j: nat)
    requires |used| == |ys|
  {
    forall l | j <= l < |ys| && !used[l] :: !AllRelated(Largest(h), x, ys[l])
  }

  lemma {:induction false} MateMeans(sc: Scope, seen: Relation, x: seq<Value>, ys: seq<seq<Value>>, used: seq<bool>,
                                     j: nat)
    requires Sound(sc) && seen <= sc.meet && AllWithin(sc.h.Keys, x) && RowsWithin(sc.h.Keys, ys) && Wide(ys, |x|)
    requires |used| == |ys| && j <= |ys| && RowMeets(sc.meet, x, ys)
    ensures var (v, i) := JudgeMate(sc.h, sc.lengthOf, seen, x, ys, used, j);
            && (v == Equal ==> AllFollow(sc, seen, x, ys[i]))
            && (v == Different && (Trusted(sc, seen) || Flat(x)) ==> Mateless(sc.h, x, ys, used, j))
            && (v == Thrown ==> !Unconfused(sc) && !Flat(x))
    decreases AllPairs(sc.h) - seen, 9, |ys| - j
  {
    assert Closed(sc.h);
    hide Closed, AllFollow, Trusted, Largest, Unconfused, Sound, AllRelated, Flat, AllWithin, JudgeLists, AllPairs,
      ListsMeet;
    if j < |ys| {
      MateMeans(sc, seen, x, ys, used, j + 1);
      if !used[j] { ListsMean(sc, seen, x, ys[j]); }
    }
  }

  lemma FullMatching(h: Heap, xs: seq<seq<Value>>, ys: seq<seq<Value>>) returns (full: seq<nat>)
    requires Into(Largest(h), xs, ys)
    ensures Completes(full, |xs|, |ys|, RowRelation(h, xs, ys), [])
  {
    hide AllRelated;
    full :| RowsInto(Largest(h), xs, ys, full);
  }

  /** The rows of `xs` before position `|mates|` have taken their mates; a full matching that
      agrees with them exists as long as any does. */
  ghost predicate Partway(sc: Scope, seen: Relation, xs: seq<seq<Value>>, ys: seq<seq<Value>>, used: seq<bool>,
                          mates: seq<nat>)
    requires Sound(sc)
  {
    && |mates| <= |xs| && |used| == |ys| && Injection(mates, |ys|)
    && (forall j | 0 <= j < |ys| :: used[j] <==> j in mates)
    && (forall k | 0 <= k < |mates| :: AllFollow(sc, seen, xs[k], ys[mates[k]]))
  }

  ghost predicate Matchable(sc: Scope, seen: Relation, xs: seq<seq<Value>>, ys: seq<seq<Value>>)
    requires Sound(sc)
  {
    (Trusted(sc, seen) || FlatRows(xs)) && Into(Largest(sc.h), xs, ys)
  }

  ghost predicate RowsOutcome(sc: Scope, seen: Relation, xs: seq<seq<Value>>, ys: seq<seq<Value>>, v: Verdict)
    requires Sound(sc)
  {
    && (v == Equal ==> exists p :: RowsFollow(sc, seen, xs, ys, p))
    && (v == Different ==> !Matchable(sc, seen, xs, ys))
    && (v == Thrown ==> !Unconfused(sc) && !FlatRows(xs))
  }

  lemma {:induction false} RowsMean(sc: Scope, seen: Relation, xs: seq<seq<Value>>, ys: seq<seq<Value>>, i: nat,
                                    used: seq<bool>, mates: seq<nat>, full: seq<nat>)
    requires Sound(sc) && seen <= sc.meet && RowsWithin(sc.h.Keys, xs) && RowsWithin(sc.h.Keys, ys) && Alike(xs, ys)
    requires RowsMeet(sc.meet, xs, ys) && Partway(sc, seen, xs, ys, used, mates) && |mates| == i
    requires Matchable(sc, seen, xs, ys) ==> Completes(full, |xs|, |ys|, RowRelation(sc.h, xs, ys), mates)
    ensures RowsWithin(sc.h.Keys, xs[i..]) && Alike(xs[i..], ys)
    ensures RowsOutcome(sc, seen, xs, ys, JudgeRows(sc.h, sc.lengthOf, seen, xs[i..], ys, used))
    decreases AllPairs(sc.h) - seen, 10, |xs| - i
  {
    assert Closed(sc.h);
    PartwayLength(sc, seen, xs, ys, used, mates);
    SuffixReady(sc.h.Keys, xs, ys, i);
    hide Closed, Matchable, Unconfused, Sound, AllFollow, Largest, AllWithin, AllPairs, JudgeMate, JudgeRows, Completes,
      Flat, FlatRows, RowsWithin, Alike, Wide, RowsMeet, RowMeets, Mateless, Partway, RowsFollow, RowRelation, Trusted,
      RowsOutcome;
    if i == |xs| {
      AllTaken(sc, seen, xs, ys, used, mates);
      assert xs[i..] == [];
      NothingTaken(sc.h, sc.lengthOf, seen, ys, used);
    } else {
      SuffixReady(sc.h.Keys, xs, ys, i + 1);
      RowsTurn(sc.h, sc.lengthOf, seen, xs, ys, used, i);
      RowsMeetAt(sc.meet, xs, ys, i);
      MateMeans(sc, seen, xs[i], ys, used, 0);
      var (v, j) := JudgeMate(sc.h, sc.lengthOf, seen, xs[i], ys, used, 0);
      if v == Equal {
        var next := full;
        if Matchable(sc, seen, xs, ys) { next := TakenMate(sc, seen, xs, ys, full, used, mates, j); }
        MoreMates(sc, seen, xs, ys, used, mates, j);
        RowsMean(sc, seen, xs, ys, i + 1, used[j := true], mates + [j], next);
      } else {
        NotTaken(sc, seen, xs, ys, full, used, mates, v);
      }
    }
  }

  lemma NotTaken(sc: Scope, seen: Relation, xs: seq<seq<Value>>, ys: seq<seq<Value>>, full: seq<nat>, used: seq<bool>,
                 mates: seq<nat>, v: Verdict)
    requires Sound(sc) && Partway(sc, seen, xs, ys, used, mates) && |mates| < |xs| && |used| == |ys| && v != Equal
    requires Matchable(sc, seen, xs, ys) ==> Completes(full, |xs|, |ys|, RowRelation(sc.h, xs, ys), mates)
    requires v == Different && (Trusted(sc, seen) || Flat(xs[|mates|])) ==> Mateless(sc.h, xs[|mates|], ys, used, 0)
    requires v == Thrown ==> !Unconfused(sc) && !Flat(xs[|mates|])
    ensures RowsOutcome(sc, seen, xs, ys, v)
  {
    hide Matchable, Unconfused, Sound, Completes, Flat, FlatRows, Mateless, Partway, RowsFollow, RowRelation, Trusted;
    FlatAt(xs, |mates|);
    if Matchable(sc, seen, xs, ys) { MateRelated(sc, seen, xs, ys, full, used, mates); }
  }

  lemma PartwayLength(sc: Scope, seen: Relation, xs: seq<seq<Value>>, ys: seq<seq<Value>>, used: seq<bool>,
                      mates: seq<nat>)
    requires Sound(sc) && Partway(sc, seen, xs, ys, used, mates)
    ensures |mates| <= |xs| && |used| == |ys|
  {
  }

  lemma AllTaken(sc: Scope, seen: Relation, xs: seq<seq<Value>>, ys: seq<seq<Value>>, used: seq<bool>, mates: seq<nat>)
    requires Sound(sc) && Partway(sc, seen, xs, ys, used, mates) && |mates| == |xs|
    ensures RowsOutcome(sc, seen, xs, ys, Equal)
  {
    hide AllFollow, Sound;
    assert RowsFollow(sc, seen, xs, ys, mates);
  }

  lemma RowsMeetAt(meet: Relation, xs: seq<seq<Value>>, ys: seq<seq<Value>>, i: nat)
    requires RowsMeet(meet, xs, ys) && i < |xs|
    ensures RowMeets(meet, xs[i], ys)
  {
    hide ListsMeet;
  }

  lemma FlatAt(xs: seq<seq<Value>>, i: nat)
    requires i < |xs|
    ensures FlatRows(xs) ==> Flat(xs[i])
  {
    hide Flat;
  }

  lemma MoreMates(sc: Scope, seen: Relation, xs: seq<seq<Value>>, ys: seq<seq<Value>>, used: seq<bool>, mates: seq<nat>,
                  j: nat)
    requires Sound(sc) && Partway(sc, seen, xs, ys, used, mates) && |mates| < |xs| && j < |ys| && !used[j]
    requires AllFollow(sc, seen, xs[|mates|], ys[j])
    ensures Partway(sc, seen, xs, ys, used[j := true], mates + [j])
  {
    hide AllFollow, Sound;
  }

  /** While a matching is possible, the next row has an unused mate. */
  lemma MateRelated(sc: Scope, seen: Relation, xs: seq<seq<Value>>, ys: seq<seq<Value>>, full: seq<nat>,
                    used: seq<bool>, mates: seq<nat>)
    requires Sound(sc) && Matchable(sc, seen, xs, ys) && |ys| == |used| && |mates| < |xs|
    requires Partway(sc, seen, xs, ys, used, mates) && Completes(full, |xs|, |ys|, RowRelation(sc.h, xs, ys), mates)
    ensures !Mateless(sc.h, xs[|mates|], ys, used, 0)
    ensures Trusted(sc, seen) || Flat(xs[|mates|])
  {
    hide AllRelated, Sound, Trusted, Completes, Largest, AllFollow;
    MateLeft(full, |xs|, |ys|, RowRelation(sc.h, xs, ys), mates);
  }

  lemma TakenMate(sc: Scope, seen: Relation, xs: seq<seq<Value>>, ys: seq<seq<Value>>, full: seq<nat>, used: seq<bool>,
                  mates: seq<nat>, j: nat)
    returns (next: seq<nat>)
    requires Sound(sc) && seen <= sc.meet && Matchable(sc, seen, xs, ys) && |mates| < |xs|
    requires Partway(sc, seen, xs, ys, used, mates) && Completes(full, |xs|, |ys|, RowRelation(sc.h, xs, ys), mates)
    requires j < |ys| == |used| && !used[j] && AllFollow(sc, seen, xs[|mates|], ys[j])
    ensures Completes(next, |xs|, |ys|, RowRelation(sc.h, xs, ys), mates + [j])
  {
    hide AllRelated, Sound, Trusted, Completes, Largest, AllFollow, Difunctional;
    AllFollowLargest(sc, seen, xs[|mates|], ys[j]);
    RowRelationDifunctional(sc.h, xs, ys);
    next := TakeMate(full, |xs|, |ys|, RowRelation(sc.h, xs, ys), mates, j);
  }

  lemma {:induction false} AllRowsMean(sc: Scope, seen: Relation, xs: seq<seq<Value>>, ys: seq<seq<Value>>)
    requires Sound(sc) && seen <= sc.meet && RowsWithin(sc.h.Keys, xs) && RowsWithin(sc.h.Keys, ys) && Alike(xs, ys)
    requires RowsMeet(sc.meet, xs, ys)
    ensures var v := JudgeRows(sc.h, sc.lengthOf, seen, xs, ys, NoneUsed(|ys|));
            && (v == Equal ==> exists p :: RowsFollow(sc, seen, xs, ys, p))
            && (v == Different && Trusted(sc, seen) ==> !RowsRelated(Largest(sc.h), xs, ys))
            && (v == Thrown ==> !Unconfused(sc))
            && FlatVerdict(sc.h, xs, ys, v)
    decreases AllPairs(sc.h) - seen, 10, |xs| + 1
  {
    assert Closed(sc.h);
    hide Closed, Unconfused, Sound, AllFollow, Largest, AllPairs, JudgeRows, Completes, RowsMeet, Alike, RowsWithin,
      Trusted, RowsRelated, FlatRows;
    var full: seq<nat> := [];
    if Matchable(sc, seen, xs, ys) { full := FullMatching(sc.h, xs, ys); }
    assert xs[0..] == xs;
    RowsMean(sc, seen, xs, ys, 0, NoneUsed(|ys|), [], full);
    MatchingIsInto(Largest(sc.h), xs, ys);
    if JudgeRows(sc.h, sc.lengthOf, seen, xs, ys, NoneUsed(|ys|)) == Equal && FlatRows(xs) {
      var p :| RowsFollow(sc, seen, xs, ys, p);
      FlatMatched(sc, seen, xs, ys, p);
    }
  }

  lemma FlatMatched(sc: Scope, assumed: Relation, xs: seq<seq<Value>>, ys: seq<seq<Value>>, p: seq<nat>)
    requires Sound(sc) && assumed <= sc.meet && RowsFollow(sc, assumed, xs, ys, p) && FlatRows(xs)
    ensures Into(Largest(sc.h), xs, ys)
  {
    hide AllFollow, Largest, AllRelated, Sound;
    forall i | 0 <= i < |xs| ensures AllRelated(Largest(sc.h), xs[i], ys[p[i]]) {
      AllFollowLargest(sc, assumed, xs[i], ys[p[i]]);
    }
    assert RowsInto(Largest(sc.h), xs, ys, p);
  }
}
