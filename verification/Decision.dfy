/** When the deep comparison decides bisimilarity, when it cannot, and graphs that show where
    the line runs. */
module Decision {
  import opened Values
  import opened Bisimulation
  import opened Matching
  import opened Similarity
  import opened Judgement
  import Strings = Text

  /** The comparison answers what is true. */
  ghost predicate Right(h: Heap, lengthOf: LengthOf, a: Value, b: Value)
    requires Closed(h) && InHeap(h, a) && InHeap(h, b)
  {
    Judge(h, lengthOf, {}, a, b) == if Bisimilar(h, a, b) then Equal else Different
  }

  /** In a scope without confusion every comparison of values that meet is right. */
  lemma UnconfusedRight(sc: Scope, a: Value, b: Value)
    requires Sound(sc) && Unconfused(sc) && InHeap(sc.h, a) && InHeap(sc.h, b) && ValuesMeet(sc.meet, a, b)
    ensures Right(sc.h, sc.lengthOf, a, b)
  {
    assert Closed(sc.h);
    hide Sound, Unconfused, Closed, Judge, Bisimilar, Largest, Follows;
    JudgeMeans(sc, {}, a, b);
    BisimilarIsLargest(sc.h, a, b);
    if Judge(sc.h, sc.lengthOf, {}, a, b) == Equal { FollowsLargest(sc, {}, a, b); }
  }

  /** Deep equality decides bisimilarity on every finite graph of primitives, arrays, plain
      objects, Maps and Sets, cyclic or not, in which the pairs that meet are not confused. */
  lemma JudgeDecides(h: Heap, lengthOf: LengthOf, a: Value, b: Value)
    requires Closed(h) && InHeap(h, a) && InHeap(h, b)
    ensures Sound(ScopeOf(h, lengthOf, a, b))
    ensures Unconfused(ScopeOf(h, lengthOf, a, b)) ==> Right(h, lengthOf, a, b)
  {
    hide Sound, Unconfused, Closed, Right, Meetings;
    ScopeSound(h, lengthOf, a, b);
    if Unconfused(ScopeOf(h, lengthOf, a, b)) { UnconfusedRight(ScopeOf(h, lengthOf, a, b), a, b); }
  }

  /** It is enough to find some scope, holding the two values, in which whatever passes the
      guards is of one kind. */
  lemma OneKindRight(sc: Scope, a: Value, b: Value)
    requires Sound(sc) && InHeap(sc.h, a) && InHeap(sc.h, b) && ValuesMeet(sc.meet, a, b)
    requires forall p | p in sc.meet :: OneKindAt(sc, p)
    ensures Sound(ScopeOf(sc.h, sc.lengthOf, a, b)) && Unconfused(ScopeOf(sc.h, sc.lengthOf, a, b))
    ensures Right(sc.h, sc.lengthOf, a, b)
  {
    assert Closed(sc.h);
    hide Sound, Unconfused, Closed, Right, Meetings, OneKindAt;
    JudgeDecides(sc.h, sc.lengthOf, a, b);
    ScopeLeast(sc.h, sc.lengthOf, a, b, sc.meet);
    OneKindUnconfused(sc);
    UnconfusedShrinks(ScopeOf(sc.h, sc.lengthOf, a, b), sc);
  }

  // ---------- primitives ----------

  /** The two zeros, which `===` does not tell apart. */
  predicate SignedZeros(a: Value, b: Value) {
    {a, b} == {Numeric(NegZero), Numeric(Finite(0.0))}
  }

  /** A primitive equals itself, NaN included, and otherwise only the other zero; whatever is assumed. */
  lemma PrimitivesExact(h: Heap, lengthOf: LengthOf, seen: Relation, a: Value, b: Value)
    requires Closed(h) && InHeap(h, a) && InHeap(h, b) && (!a.Object? || !b.Object?)
    ensures Judge(h, lengthOf, seen, a, b) == if a == b || SignedZeros(a, b) then Equal else Different
    ensures Bisimilar(h, a, b) <==> a == b || SignedZeros(a, b)
  {
    PrimitiveEqualExact(a, b);
    BisimilarIsLargest(h, a, b);
  }

  lemma PrimitiveEqualExact(a: Value, b: Value)
    ensures PrimitiveEqual(a, b) <==> a == b || SignedZeros(a, b)
    ensures StrictEqual(a, b) <==> a != Numeric(NaN) && (a == b || SignedZeros(a, b))
  {
    if SignedZeros(a, b) {
      assert a in {a, b} && b in {a, b};
      assert Numeric(NegZero) in {a, b} && Numeric(Finite(0.0)) in {a, b};
    }
    if a.Numeric? && b.Numeric? && IsZero(a.n) && IsZero(b.n) && a != b {
      assert {a, b} == {Numeric(NegZero), Numeric(Finite(0.0))};
    }
  }

  // ---------- Sets and Maps of plain members ----------

  /** No node of `refs` is a Map or a Set. */
  predicate ContainerFree(h: Heap, refs: set<Ref>)
    requires refs <= h.Keys
  {
    forall r | r in refs :: !IsContainer(h[r])
  }

  /** Against a value built of primitives, arrays and plain objects, whatever is compared. */
  lemma PlainRight(h: Heap, lengthOf: LengthOf, right: set<Ref>, a: Value, b: Value)
    requires Closed(h) && Enclosed(h, right) && ContainerFree(h, right) && InHeap(h, a) && Within(right, b)
    ensures Right(h, lengthOf, a, b)
  {
    hide Right, NodeWithin, NodesMeet;
    var sc := Scope(h, lengthOf, Across(h.Keys, right));
    AcrossSound(h, lengthOf, h.Keys, right);
    forall p | p in sc.meet ensures OneKindAt(sc, p) { AdmittedPlain(h[p.0], h[p.1]); }
    OneKindRight(sc, a, b);
  }

  /** Two Sets, or two Maps, of members built of primitives, arrays and plain objects, cyclic or
      not and whatever their fields are called, are told apart exactly. */
  lemma PlainMembers(h: Heap, lengthOf: LengthOf, plain: set<Ref>, r: Ref, s: Ref)
    requires Closed(h) && Enclosed(h, plain) && ContainerFree(h, plain)
    requires r in h && s in h && SameKind(h[r], h[s]) && NodeWithin(plain, h[r]) && NodeWithin(plain, h[s])
    ensures Right(h, lengthOf, Object(r), Object(s))
  {
    hide Right, Closed, NodeWithin, NodesMeet;
    var meet := Across(plain, plain) + {(r, s)};
    var sc := Scope(h, lengthOf, meet);
    forall p | p in meet ensures MeetsAt(sc, p) {
      AcrossMeets(lengthOf, plain, plain, meet, h[p.0], h[p.1]);
    }
    forall p | p in meet ensures OneKindAt(sc, p) {
      if p != (r, s) { AdmittedPlain(h[p.0], h[p.1]); }
    }
    OneKindRight(sc, Object(r), Object(s));
  }

  lemma AdmittedPlain(n: Node, m: Node)
    requires !IsContainer(m)
    ensures Admitted(n, m) ==> SameKind(n, m)
  {
  }

  /** Two plain values, or two containers of one kind with plain members. */
  predicate Homogeneous(h: Heap, plain: set<Ref>, a: Value, b: Value) {
    a.Object? && b.Object? ==>
      || (a.ref in plain && b.ref in plain)
      || (&& a.ref in h && b.ref in h && SameKind(h[a.ref], h[b.ref])
          && NodeWithin(plain, h[a.ref]) && NodeWithin(plain, h[b.ref]))
  }

  ghost function FieldPairs(f: map<string, Value>, g: map<string, Value>): (rel: Relation) {
    set k | k in f && k in g && f[k].Object? && g[k].Object? :: (f[k].ref, g[k].ref)
  }

  /** The same of two objects that hold such Sets and Maps beside plain values, each under its
      own key. */
  lemma PlainFields(h: Heap, lengthOf: LengthOf, plain: set<Ref>, r: Ref, s: Ref)
    requires Closed(h) && Enclosed(h, plain) && ContainerFree(h, plain)
    requires r in h && s in h && h[r].PlainNode? && h[s].PlainNode?
    requires forall k | k in h[r].fields && k in h[s].fields ::
               Homogeneous(h, plain, h[r].fields[k], h[s].fields[k])
    ensures Right(h, lengthOf, Object(r), Object(s))
  {
    hide Right, Closed, NodeWithin, NodesMeet;
    var f, g := h[r].fields, h[s].fields;
    var meet := Across(plain, plain) + FieldPairs(f, g) + {(r, s)};
    var sc := Scope(h, lengthOf, meet);
    forall p | p in meet ensures MeetsAt(sc, p) {
      if p == (r, s) { FieldPairsMeet(lengthOf, meet, h[r], h[s]); }
      else { AcrossMeets(lengthOf, plain, plain, meet, h[p.0], h[p.1]); }
    }
    forall p | p in meet ensures OneKindAt(sc, p) {
      if p in Across(plain, plain) { AdmittedPlain(h[p.0], h[p.1]); }
    }
    OneKindRight(sc, Object(r), Object(s));
  }

  lemma FieldPairsMeet(lengthOf: LengthOf, meet: Relation, n: Node, m: Node)
    requires n.PlainNode? && m.PlainNode? && FieldPairs(n.fields, m.fields) <= meet
    ensures NodesMeet(lengthOf, meet, n, m)
  {
  }

  // ---------- the pairs answered wrongly ----------

  /** Two nodes of different kinds that the comparison nevertheless does not call different. */
  ghost predicate Misjudged(lengthOf: LengthOf, n: Node, m: Node) {
    !SameKind(n, m) && Admitted(n, m) &&
    match LeftRows(lengthOf, n, m)
    case None => true
    case Some(rows) => FlatRows(rows) && Into({}, rows, RightRows(m))
  }

  /** Rows of primitives are related by nothing or by everything. */
  lemma FlatAnyRelation(rel: Relation, sel: Relation, xs: seq<seq<Value>>, ys: seq<seq<Value>>)
    requires FlatRows(xs) && Into(rel, xs, ys)
    ensures Into(sel, xs, ys)
  {
    var p :| RowsInto(rel, xs, ys, p);
    forall i | 0 <= i < |xs| ensures AllRelated(sel, xs[i], ys[p[i]]) {
      assert AllRelated(rel, xs[i], ys[p[i]]) && Flat(xs[i]);
    }
    assert RowsInto(sel, xs, ys, p);
  }

  /** Bisimilar objects are of one kind. */
  lemma KindsDiffer(h: Heap, r: Ref, s: Ref)
    requires r in h && s in h && !SameKind(h[r], h[s])
    ensures !Bisimilar(h, Object(r), Object(s))
  {
    hide Largest, Bisimilar;
    BisimilarIsLargest(h, Object(r), Object(s));
    if (r, s) in Largest(h) { LargestNodes(h, r, s); }
  }

  lemma MisjudgedVerdict(lengthOf: LengthOf, h: Heap, n: Node, m: Node, v: Verdict)
    requires Misjudged(lengthOf, n, m) && Settled(lengthOf, h, n, m, v)
    ensures v == if LeftRows(lengthOf, n, m).None? then Thrown else Equal
  {
    hide Into, LeftRows, RightRows, Largest, SizeField;
    var rows := LeftRows(lengthOf, n, m);
    if rows.Some? { FlatAnyRelation({}, Largest(h), rows.value, RightRows(m)); }
  }

  /** What is known of the verdict on two distinct objects, confused or not. */
  lemma JudgeSettled(h: Heap, lengthOf: LengthOf, r: Ref, s: Ref)
    requires Closed(h) && r in h && s in h && r != s
    ensures Settled(lengthOf, h, h[r], h[s], Judge(h, lengthOf, {}, Object(r), Object(s)))
  {
    hide Closed, Settled, Meetings, Sound;
    ScopeSound(h, lengthOf, Object(r), Object(s));
    ObjectsMean(ScopeOf(h, lengthOf, Object(r), Object(s)), {}, r, s);
  }

  /** A misjudged pair is called equal, or the comparison throws; it is not bisimilar. */
  lemma MisjudgedWrong(h: Heap, lengthOf: LengthOf, r: Ref, s: Ref)
    requires Closed(h) && r in h && s in h && Misjudged(lengthOf, h[r], h[s])
    ensures !Bisimilar(h, Object(r), Object(s))
    ensures Judge(h, lengthOf, {}, Object(r), Object(s)) ==
            if LeftRows(lengthOf, h[r], h[s]).None? then Thrown else Equal
  {
    assert !SameKind(h[r], h[s]);
    if r == s { KindOfItself(h[r]); }
    hide Closed, Settled, Misjudged, Bisimilar, SameKind, LeftRows, Judge;
    KindsDiffer(h, r, s);
    JudgeSettled(h, lengthOf, r, s);
    MisjudgedVerdict(lengthOf, h, h[r], h[s], Judge(h, lengthOf, {}, Object(r), Object(s)));
  }

  // ---------- a plain object against a Set ----------

  /** `x[i]` */
  function Item(fs: map<string, Value>, i: nat): (v: Value) {
    if Strings.Decimal(i) in fs then fs[Strings.Decimal(i)] else Undefined
  }

  /** The items below `n` are among the members, each its own. */
  ghost predicate ItemsAmong(fs: map<string, Value>, n: nat, ms: seq<Value>, p: seq<nat>) {
    |p| == n && Injection(p, |ms|) &&
    forall i: nat | i < n :: Item(fs, i) == ms[p[i]] || SignedZeros(Item(fs, i), ms[p[i]])
  }

  /** `Array.from` of an object without a `length` is empty. */
  function ItemCount(lengthOf: LengthOf, fs: map<string, Value>): (n: Strings.Option<nat>) {
    if "length" in fs then lengthOf(fs["length"]) else Strings.Some(0)
  }

  /** A plain object against a Set: different unless it has the Set's size in `size`; else the
      comparison throws when its `length` cannot be read, and otherwise asks whether its items,
      when they are primitives, are among the members. */
  lemma ArrayLikeExact(h: Heap, lengthOf: LengthOf, r: Ref, s: Ref)
    requires Closed(h) && r in h && s in h && h[r].PlainNode? && h[s].SetNode?
    ensures var fs, ms := h[r].fields, h[s].members;
            var v, count := Judge(h, lengthOf, {}, Object(r), Object(s)), ItemCount(lengthOf, fs);
            var size := Numeric(Finite(|ms| as real));
            if "size" !in fs || (fs["size"] != size && !SignedZeros(fs["size"], size)) then v == Different
            else if count.None? then v == Thrown
            else (forall i: nat | i < count.value :: !Item(fs, i).Object?) ==>
                   v == if exists p :: ItemsAmong(fs, count.value, ms, p) then Equal else Different
  {
    hide Judge, Strings.Decimal, Closed, SignedZeros;
    JudgeSettled(h, lengthOf, r, s);
    var n, m := h[r], h[s];
    if "size" in n.fields { PrimitiveEqualExact(n.fields["size"], SizeField(m)); }
    var count := ItemCount(lengthOf, n.fields);
    if Admitted(n, m) && count.Some? && forall i: nat | i < count.value :: !Item(n.fields, i).Object? {
      var xs := ArrayFrom(lengthOf, n.fields).value;
      ItemRows(Largest(h), n.fields, xs, m.members);
    }
  }

  lemma ItemRows(rel: Relation, fs: map<string, Value>, xs: seq<Value>, ms: seq<Value>)
    requires forall i: nat | i < |xs| :: xs[i] == Item(fs, i) && !xs[i].Object?
    ensures FlatRows(MemberRows(xs))
    ensures Into(rel, MemberRows(xs), MemberRows(ms)) <==> exists p :: ItemsAmong(fs, |xs|, ms, p)
  {
    hide Item;
    forall p: seq<nat> ensures RowsInto(rel, MemberRows(xs), MemberRows(ms), p) <==> ItemsAmong(fs, |xs|, ms, p) {
      if |p| == |xs| && Injection(p, |ms|) {
        forall i: nat | i < |xs|
          ensures AllRelated(rel, MemberRows(xs)[i], MemberRows(ms)[p[i]]) <==>
                  Item(fs, i) == ms[p[i]] || SignedZeros(Item(fs, i), ms[p[i]])
        {
          assert MemberRows(xs)[i] == [xs[i]] && MemberRows(ms)[p[i]] == [ms[p[i]]];
          OneRelated(rel, xs[i], ms[p[i]]);
          PrimitiveEqualExact(xs[i], ms[p[i]]);
        }
      }
    }
  }

  // ---------- the exact condition ----------

  /** Of two nodes of different kinds that pass the guards, the left one is read as rows of
      primitives, or reading it throws. */
  ghost predicate Tractable(lengthOf: LengthOf, n: Node, m: Node) {
    !SameKind(n, m) && Admitted(n, m) ==>
      LeftRows(lengthOf, n, m).None? || FlatRows(LeftRows(lengthOf, n, m).value)
  }

  ghost predicate TractableAt(sc: Scope, p: (Ref, Ref))
    requires Sound(sc) && p in sc.meet
  {
    assert MeetsAt(sc, p);
    Tractable(sc.lengthOf, sc.h[p.0], sc.h[p.1])
  }

  ghost predicate MisjudgedAt(sc: Scope, p: (Ref, Ref))
    requires Sound(sc) && p in sc.meet
  {
    assert MeetsAt(sc, p);
    Misjudged(sc.lengthOf, sc.h[p.0], sc.h[p.1])
  }

  ghost predicate RightAt(sc: Scope, p: (Ref, Ref))
    requires Sound(sc) && p in sc.meet
  {
    assert MeetsAt(sc, p);
    Right(sc.h, sc.lengthOf, Object(p.0), Object(p.1))
  }

  /** In a tractable scope every pair is answered right exactly when none is misjudged. */
  lemma AllRightExactly(sc: Scope)
    requires Sound(sc) && forall p | p in sc.meet :: TractableAt(sc, p)
    ensures (forall p | p in sc.meet :: RightAt(sc, p)) <==> (forall p | p in sc.meet :: !MisjudgedAt(sc, p))
  {
    hide Sound, TractableAt, MisjudgedAt, RightAt, Unconfused, Closed;
    if forall p | p in sc.meet :: !MisjudgedAt(sc, p) {
      NoneMisjudgedUnconfused(sc);
      forall p | p in sc.meet ensures RightAt(sc, p) { UnconfusedRightAt(sc, p); }
    }
    forall p | p in sc.meet && MisjudgedAt(sc, p) ensures !RightAt(sc, p) { MisjudgedWrongAt(sc, p); }
  }

  lemma UnconfusedRightAt(sc: Scope, p: (Ref, Ref))
    requires Sound(sc) && Unconfused(sc) && p in sc.meet
    ensures RightAt(sc, p)
  {
    hide Unconfused, Right;
    SoundAt(sc, p);
    UnconfusedRight(sc, Object(p.0), Object(p.1));
  }

  lemma MisjudgedWrongAt(sc: Scope, p: (Ref, Ref))
    requires Sound(sc) && p in sc.meet && MisjudgedAt(sc, p)
    ensures !RightAt(sc, p)
  {
    assert Closed(sc.h);
    SoundAt(sc, p);
    hide Sound, Closed, Misjudged, Judge, Bisimilar;
    MisjudgedWrong(sc.h, sc.lengthOf, p.0, p.1);
  }

  lemma NoneMisjudgedUnconfused(sc: Scope)
    requires Sound(sc) && (forall p | p in sc.meet :: TractableAt(sc, p) && !MisjudgedAt(sc, p))
    ensures Unconfused(sc)
  {
    hide Sound, IsLoose, LooselyRelated, Misjudged, Tractable, Throws, SameKind;
    forall p | p in sc.meet ensures !ThrowsAt(sc, p) {
      assert !MisjudgedAt(sc, p);
      SoundAt(sc, p);
      ThrowsMisjudged(sc.lengthOf, sc.h[p.0], sc.h[p.1]);
    }
    forall rel: Relation | rel <= sc.meet && IsLoose(sc, rel) ensures KeepsKinds(sc, rel) {
      forall p | p in rel ensures KindsAt(sc, p) {
        assert TractableAt(sc, p) && !MisjudgedAt(sc, p);
        LooselyMisjudged(sc, rel, p);
      }
    }
  }

  lemma ThrowsMisjudged(lengthOf: LengthOf, n: Node, m: Node)
    ensures Throws(lengthOf, n, m) ==> Misjudged(lengthOf, n, m)
  {
  }

  lemma LooselyMisjudged(sc: Scope, rel: Relation, p: (Ref, Ref))
    requires Sound(sc) && rel <= sc.meet && IsLoose(sc, rel) && p in rel && TractableAt(sc, p)
    ensures KindsAt(sc, p) || MisjudgedAt(sc, p)
  {
    hide Sound, RowsInto, RowsRelated;
    SoundAt(sc, p);
    var n, m := sc.h[p.0], sc.h[p.1];
    if !SameKind(n, m) {
      assert Loosely(sc, rel, p) && IsContainer(m);
      var xs, ys := LeftRows(sc.lengthOf, n, m).value, RightRows(m);
      hide LeftRows, RightRows, SizeField, Into;
      FlatAnyRelation(rel, {}, xs, ys);
    }
  }

  // ---------- graphs on either side of the line ----------

  const ONE := Numeric(Finite(1.0))

  function Box(): (n: Node) {
    PlainNode(map["size" := ONE])
  }

  /** `new Set([{size: 1}])` twice. */
  function Boxes(): (h: Heap) {
    map[0 := SetNode([Object(2)]), 1 := SetNode([Object(3)]), 2 := Box(), 3 := Box()]
  }

  lemma BoxesBisimilar()
    ensures Bisimilar(Boxes(), Object(0), Object(1))
  {
    var rel: Relation := {(0, 1), (2, 3)};
    assert RowMatching(rel, MemberRows([Object(2)]), MemberRows([Object(3)]), [0]);
    assert IsBisimulation(Boxes(), rel) && Related(rel, Object(0), Object(1));
  }

  lemma BoxesEqual(lengthOf: LengthOf)
    ensures Closed(Boxes()) && Judge(Boxes(), lengthOf, {}, Object(0), Object(1)) == Equal
  {
    hide Judge, Bisimilar;
    BoxesBisimilar();
    PlainMembers(Boxes(), lengthOf, {2, 3}, 0, 1);
  }

  /** `{[m]: new Map([[1, 1]]), [box]: {size: 1}}` twice. */
  function Crates(m: string, box: string): (h: Heap) {
    map[0 := PlainNode(map[m := Object(1), box := Object(2)]), 1 := MapNode([(ONE, ONE)]), 2 := Box(),
        3 := PlainNode(map[m := Object(4), box := Object(5)]), 4 := MapNode([(ONE, ONE)]), 5 := Box()]
  }

  lemma CratesBisimilar(m: string, box: string)
    requires m != box
    ensures Bisimilar(Crates(m, box), Object(0), Object(3))
  {
    var h := Crates(m, box);
    var rel: Relation := {(0, 3), (1, 4), (2, 5)};
    assert RowMatching(rel, EntryRows(h[1]), EntryRows(h[4]), [0]);
    assert IsBisimulation(h, rel) && Related(rel, Object(0), Object(3));
  }

  lemma CratesEqual(lengthOf: LengthOf, m: string, box: string)
    requires m != box
    ensures Closed(Crates(m, box)) && Judge(Crates(m, box), lengthOf, {}, Object(0), Object(3)) == Equal
  {
    hide Judge, Bisimilar;
    CratesBisimilar(m, box);
    PlainFields(Crates(m, box), lengthOf, {2, 5}, 0, 3);
  }

  /** `new Set([1])` passes for `new Map([[1, 1]])`. */
  lemma SetPassesForMap(lengthOf: LengthOf)
    ensures var h: Heap := map[0 := SetNode([ONE]), 1 := MapNode([(ONE, ONE)])];
            Closed(h) && !Bisimilar(h, Object(0), Object(1)) && Judge(h, lengthOf, {}, Object(0), Object(1)) == Equal
  {
    hide Judge, Bisimilar;
    var h: Heap := map[0 := SetNode([ONE]), 1 := MapNode([(ONE, ONE)])];
    assert RowsInto({}, EntryRows(h[0]), EntryRows(h[1]), [0]);
    MisjudgedWrong(h, lengthOf, 0, 1);
  }

  /** Comparing `{size: 1}` with `new Map([[1, 1]])` throws. */
  lemma BoxAgainstMapThrows(lengthOf: LengthOf)
    ensures var h: Heap := map[0 := Box(), 1 := MapNode([(ONE, ONE)])];
            Closed(h) && !Bisimilar(h, Object(0), Object(1)) && Judge(h, lengthOf, {}, Object(0), Object(1)) == Thrown
  {
    hide Judge, Bisimilar;
    var h: Heap := map[0 := Box(), 1 := MapNode([(ONE, ONE)])];
    MisjudgedWrong(h, lengthOf, 0, 1);
  }

  /** A Set `s` of `p` and `q`, where `p` is a Set of `s` and `q` a Set of the Map `m`. */
  function Knot(entries: seq<(Value, Value)>): (h: Heap) {
    map[0 := SetNode([Object(2), Object(3)]), 1 := MapNode(entries),
        2 := SetNode([Object(0)]), 3 := SetNode([Object(1)])]
  }

  /** A Set of one member against another: the members are compared. */
  lemma Singletons(h: Heap, lengthOf: LengthOf, seen: Relation, r: Ref, s: Ref, x: Value, y: Value)
    requires Closed(h) && r in h && s in h && h[r] == SetNode([x]) && h[s] == SetNode([y]) && (r, s) !in seen
    requires InHeap(h, x) && InHeap(h, y)
    ensures JudgeObjects(h, lengthOf, seen, r, s) == Judge(h, lengthOf, seen + {(r, s)}, x, y)
  {
    var n, m, more := h[r], h[s], seen + {(r, s)};
    assert NodeInHeap(h, n) && NodeInHeap(h, m) && Admitted(n, m);
    hide Closed, Judge, AllPairs;
    assert JudgeObjects(h, lengthOf, seen, r, s) == JudgeNodes(h, lengthOf, more, n, m);
    assert MemberRows([x]) == [[x]] && MemberRows([y]) == [[y]];
    assert LeftRows(lengthOf, n, m) == Strings.Some([[x]]) && RightRows(m) == [[y]];
    Ones(h, lengthOf, more, x, y);
    hide JudgeLists;
    assert JudgeMate(h, lengthOf, more, [x], [[y]], NoneUsed(1), 1) == (Different, 1);
    assert JudgeRows(h, lengthOf, more, [[x]], [[y]], NoneUsed(1)) == Judge(h, lengthOf, more, x, y) by {
      assert [[x]][1..] == [];
    }
  }

  lemma Ones(h: Heap, lengthOf: LengthOf, seen: Relation, x: Value, y: Value)
    requires Closed(h) && InHeap(h, x) && InHeap(h, y)
    ensures JudgeLists(h, lengthOf, seen, [x], [y]) == Judge(h, lengthOf, seen, x, y)
  {
    hide Closed, Judge, AllPairs;
    assert [x][1..] == [] && [y][1..] == [];
  }

  /** Rows `[x, x]` and `[y, y]` compare as `x` and `y` do. */
  lemma Twins(h: Heap, lengthOf: LengthOf, seen: Relation, x: Value, y: Value)
    requires Closed(h) && InHeap(h, x) && InHeap(h, y)
    ensures JudgeLists(h, lengthOf, seen, [x, x], [y, y]) == Judge(h, lengthOf, seen, x, y)
  {
    hide Closed, Judge, AllPairs;
    assert [x, x][1..] == [x] && [y, y][1..] == [y];
    Ones(h, lengthOf, seen, x, y);
  }

  /** Once the first row has taken the first, the second is left with the second. */
  lemma TwoRows(h: Heap, lengthOf: LengthOf, seen: Relation, x: Value, y: Value, u: Value, w: Value)
    requires Closed(h) && InHeap(h, x) && InHeap(h, y) && InHeap(h, u) && InHeap(h, w)
    requires Judge(h, lengthOf, seen, x, u) == Equal
    ensures JudgeRows(h, lengthOf, seen, [[x, x], [y, y]], [[u, u], [w, w]], NoneUsed(2)) ==
            Judge(h, lengthOf, seen, y, w)
  {
    hide Closed, Judge, JudgeLists, AllPairs;
    var ys := [[u, u], [w, w]];
    Twins(h, lengthOf, seen, x, u);
    Twins(h, lengthOf, seen, y, w);
    assert JudgeMate(h, lengthOf, seen, [x, x], ys, NoneUsed(2), 0) == (Equal, 0);
    var used := NoneUsed(2)[0 := true];
    assert JudgeMate(h, lengthOf, seen, [y, y], ys, used, 2) == (Different, 2);
    assert JudgeMate(h, lengthOf, seen, [y, y], ys, used, 1).0 == Judge(h, lengthOf, seen, y, w);
    assert JudgeMate(h, lengthOf, seen, [y, y], ys, used, 0).0 == Judge(h, lengthOf, seen, y, w);
    assert JudgeRows(h, lengthOf, seen, [[y, y]], ys, used) == Judge(h, lengthOf, seen, y, w) by {
      assert [[y, y]][1..] == [];
    }
    assert [[x, x], [y, y]][1..] == [[y, y]];
  }

  lemma SetAgainstMap(h: Heap, lengthOf: LengthOf, r: Ref, s: Ref, x: Value, y: Value, u: Value, w: Value)
    requires Closed(h) && r in h && s in h && h[r] == SetNode([x, y]) && h[s] == MapNode([(u, u), (w, w)])
    requires InHeap(h, x) && InHeap(h, y) && InHeap(h, u) && InHeap(h, w)
    requires Judge(h, lengthOf, {(r, s)}, x, u) == Equal
    ensures Judge(h, lengthOf, {}, Object(r), Object(s)) == Judge(h, lengthOf, {(r, s)}, y, w)
  {
    var n, m, more: Relation := h[r], h[s], {(r, s)};
    assert NodeInHeap(h, n) && NodeInHeap(h, m) && Admitted(n, m);
    TwoRows(h, lengthOf, more, x, y, u, w);
    hide Closed, AllPairs, JudgeRows;
    assert {} + more == more;
    assert EntryRows(n) == [[x, x], [y, y]] && EntryRows(m) == [[u, u], [w, w]];
    assert JudgeNodes(h, lengthOf, more, n, m) == Judge(h, lengthOf, more, y, w);
    assert JudgeObjects(h, lengthOf, {}, r, s) == JudgeNodes(h, lengthOf, more, n, m);
  }

  /** Beyond that the verdict on a Set and a Map can turn on the order of the Map's entries:
      here one order is called different and the other equal.  Neither is bisimilar. */
  lemma OrderMatters(lengthOf: LengthOf)
    ensures var p, q := Object(2), Object(3);
            var crossed, straight := Knot([(q, q), (p, p)]), Knot([(p, p), (q, q)]);
            && Closed(crossed) && Judge(crossed, lengthOf, {}, Object(0), Object(1)) == Different
            && Closed(straight) && Judge(straight, lengthOf, {}, Object(0), Object(1)) == Equal
            && !Bisimilar(crossed, Object(0), Object(1)) && !Bisimilar(straight, Object(0), Object(1))
  {
    hide Bisimilar, JudgeObjects;
    var p, q := Object(2), Object(3);
    KindsDiffer(Knot([(q, q), (p, p)]), 0, 1);
    KindsDiffer(Knot([(p, p), (q, q)]), 0, 1);
    SetAgainstMap(Knot([(p, p), (q, q)]), lengthOf, 0, 1, p, q, p, q);
    Crossed(lengthOf, Knot([(q, q), (p, p)]), p, q);
  }

  lemma Crossed(lengthOf: LengthOf, h: Heap, p: Value, q: Value)
    requires p == Object(2) && q == Object(3) && h == Knot([(q, q), (p, p)])
    ensures Closed(h) && Judge(h, lengthOf, {}, Object(0), Object(1)) == Different
  {
    assert Closed(h) && !Admitted(h[1], h[0]) && Admitted(h[0], h[1]);
    hide Closed, AllPairs, Admitted, JudgeNodes;
    var seen: Relation := {(0, 1)};
    Singletons(h, lengthOf, seen, 2, 3, Object(0), Object(1));
    Singletons(h, lengthOf, seen, 3, 2, Object(1), Object(0));
    assert Judge(h, lengthOf, seen + {(2, 3)}, Object(0), Object(1)) == Equal;
    assert Judge(h, lengthOf, seen + {(3, 2)}, Object(1), Object(0)) == Different;
    SetAgainstMap(h, lengthOf, 0, 1, p, q, q, p);
  }

  lemma TwinsMeet(lengthOf: LengthOf, meet: Relation, n: Node, m: Node, p: Ref, q: Ref)
    requires n == SetNode([Object(p), Object(q)]) && m.MapNode?
    requires m.entries == [(Object(q), Object(q)), (Object(p), Object(p))] && NodesMeet(lengthOf, meet, n, m)
    ensures (p, p) in meet && (q, q) in meet && !SameKind(n, m)
  {
    var xs, ys := EntryRows(n), EntryRows(m);
    assert ListsMeet(meet, xs[0], ys[1]) && ListsMeet(meet, xs[1], ys[0]);
    assert ValuesMeet(meet, xs[0][0], ys[1][0]) && ValuesMeet(meet, xs[1][0], ys[0][0]);
  }

  lemma TwinsLoose(lengthOf: LengthOf, rel: Relation, n: Node, m: Node, p: Ref, q: Ref)
    requires n == SetNode([Object(p), Object(q)]) && m.MapNode?
    requires m.entries == [(Object(q), Object(q)), (Object(p), Object(p))] && (p, p) in rel && (q, q) in rel
    ensures LooselyRelated(lengthOf, rel, n, m)
  {
    var swap: seq<nat> := [1, 0];
    assert RowsInto(rel, LeftRows(lengthOf, n, m).value, RightRows(m), swap);
  }

  /** A Set of two objects and a Map of each to itself are confused wherever they meet. */
  lemma TwinsConfused(sc: Scope, r: Ref, s: Ref, p: Ref, q: Ref)
    requires Sound(sc) && (r, s) in sc.meet && r in sc.h && s in sc.h && r != s
    requires sc.h[r] == SetNode([Object(p), Object(q)])
    requires sc.h[s].MapNode? && sc.h[s].entries == [(Object(q), Object(q)), (Object(p), Object(p))]
    ensures !Unconfused(sc)
  {
    SoundAt(sc, (r, s));
    hide Sound, NodesMeet, LooselyRelated, SameKind;
    TwinsMeet(sc.lengthOf, sc.meet, sc.h[r], sc.h[s], p, q);
    var rel: Relation := {(r, s), (p, p), (q, q)};
    TwinsLoose(sc.lengthOf, rel, sc.h[r], sc.h[s], p, q);
    assert IsLoose(sc, rel) && !KindsAt(sc, (r, s));
    assert !KeepsKinds(sc, rel);
  }

  /** The order that is called different is answered right although its scope is confused: out
      there the absence of confusion is sufficient and not necessary. */
  lemma ConfusedYetRight(lengthOf: LengthOf)
    ensures var h := Knot([(Object(3), Object(3)), (Object(2), Object(2))]);
            var sc := ScopeOf(h, lengthOf, Object(0), Object(1));
            Closed(h) && Right(h, lengthOf, Object(0), Object(1)) && Sound(sc) && !Unconfused(sc)
  {
    hide Judge, Bisimilar, Meetings, Sound, Unconfused;
    var h := Knot([(Object(3), Object(3)), (Object(2), Object(2))]);
    Crossed(lengthOf, h, Object(2), Object(3));
    KindsDiffer(h, 0, 1);
    ScopeSound(h, lengthOf, Object(0), Object(1));
    TwinsConfused(ScopeOf(h, lengthOf, Object(0), Object(1)), 0, 1, 2, 3);
  }
}
