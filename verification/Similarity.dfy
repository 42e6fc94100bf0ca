/** What the deep comparison reads of its operands, which nodes meet in it, and the similarity
    that its guards allow: one in which a Set may pass for a Map. */
module Similarity {
  import opened Values
  import opened Bisimulation
  import opened Matching
  import opened FiniteSets
  import Strings = Text

  // ---------- what the code reads of the two operands ----------

  /** The value of `x.size`: the element count of a Map or Set, or an own field. */
  function SizeField(n: Node): (v: Value) {
    match n
    case MapNode(es) => Numeric(Finite(|es| as real))
    case SetNode(ms) => Numeric(Finite(|ms| as real))
    case PlainNode(fs) => if "size" in fs then fs["size"] else Undefined
    case ArrayNode(_) => Undefined
  }

  predicate IsContainer(n: Node) {
    n.MapNode? || n.SetNode?
  }

  predicate SameKind(n: Node, m: Node) {
    || (n.ArrayNode? && m.ArrayNode?)
    || (n.PlainNode? && m.PlainNode?)
    || (n.MapNode? && m.MapNode?)
    || (n.SetNode? && m.SetNode?)
  }

  /** What `Array.from` makes of a `length`; `None` when reading it throws. */
  type LengthOf = Value -> Strings.Option<nat>

  /** `Array.from` of a plain object: its indexed fields up to its `length`. */
  function ArrayFrom(lengthOf: LengthOf, fs: map<string, Value>): (es: Strings.Option<seq<Value>>) {
    if "length" !in fs then Strings.Some([])
    else
      match lengthOf(fs["length"])
      case None => Strings.None
      case Some(len) =>
        Strings.Some(seq(len, (i: nat) => if Strings.Decimal(i) in fs then fs[Strings.Decimal(i)] else Undefined))
  }

  /** The guards before the contents are compared.  Those of the Map and Set branches test only
      the right-hand kind and `.size`, so they let `n` through against a container of another kind. */
  predicate Admitted(n: Node, m: Node) {
    match m
    case ArrayNode(ys) => n.ArrayNode? && |n.elems| == |ys|
    case PlainNode(_) => n.PlainNode?
    case MapNode(_) => !n.ArrayNode? && StrictEqual(SizeField(n), SizeField(m))
    case SetNode(_) => (n.SetNode? || n.PlainNode?) && StrictEqual(SizeField(n), SizeField(m))
  }

  /** The rows taken from the left operand against a container `m`; `None` when taking them
      throws, as a plain object has no `entries` to call. */
  function LeftRows(lengthOf: LengthOf, n: Node, m: Node): (rows: Strings.Option<seq<seq<Value>>>) {
    match n
    case PlainNode(fs) =>
      var es := ArrayFrom(lengthOf, fs);
      if m.MapNode? || es.None? then Strings.None else Strings.Some(MemberRows(es.value))
    case SetNode(ms) => Strings.Some(if m.MapNode? then EntryRows(n) else MemberRows(ms))
    case _ => Strings.Some(EntryRows(n))
  }

  function RightRows(m: Node): (rows: seq<seq<Value>>) {
    if m.SetNode? then MemberRows(m.members) else EntryRows(m)
  }

  predicate Throws(lengthOf: LengthOf, n: Node, m: Node) {
    Admitted(n, m) && IsContainer(m) && LeftRows(lengthOf, n, m).None?
  }

  predicate Wide(rows: seq<seq<Value>>, w: nat) {
    forall i | 0 <= i < |rows| :: |rows[i]| == w
  }

  lemma RowsReady(refs: set<Ref>, n: Node)
    requires NodeWithin(refs, n)
    ensures RowsWithin(refs, EntryRows(n)) && Wide(EntryRows(n), 2)
    ensures n.SetNode? ==> RowsWithin(refs, MemberRows(n.members)) && Wide(MemberRows(n.members), 1)
  {
  }

  lemma ArrayFromWithin(lengthOf: LengthOf, refs: set<Ref>, fs: map<string, Value>)
    requires NodeWithin(refs, PlainNode(fs)) && ArrayFrom(lengthOf, fs).Some?
    ensures AllWithin(refs, ArrayFrom(lengthOf, fs).value)
  {
    hide Strings.Decimal;
  }

  lemma LeftReady(lengthOf: LengthOf, refs: set<Ref>, n: Node, m: Node)
    requires NodeWithin(refs, n) && IsContainer(m) && Admitted(n, m) && LeftRows(lengthOf, n, m).Some?
    ensures RowsWithin(refs, LeftRows(lengthOf, n, m).value)
    ensures Wide(LeftRows(lengthOf, n, m).value, if m.MapNode? then 2 else 1)
  {
    hide ArrayFrom, EntryRows, SizeField;
    RowsReady(refs, n);
    if n.PlainNode? { ArrayFromWithin(lengthOf, refs, n.fields); }
  }

  lemma RightReady(refs: set<Ref>, m: Node)
    requires NodeWithin(refs, m) && IsContainer(m)
    ensures RowsWithin(refs, RightRows(m)) && Wide(RightRows(m), if m.MapNode? then 2 else 1)
  {
    hide EntryRows, MemberRows;
    RowsReady(refs, m);
  }

  // ---------- similarity as the guards see it ----------

  /** Every row on the left has its own related row on the right. */
  ghost predicate RowsInto(rel: Relation, xs: seq<seq<Value>>, ys: seq<seq<Value>>, p: seq<nat>) {
    |p| == |xs| && Injection(p, |ys|) && forall i | 0 <= i < |xs| :: AllRelated(rel, xs[i], ys[p[i]])
  }

  ghost predicate Into(rel: Relation, xs: seq<seq<Value>>, ys: seq<seq<Value>>) {
    exists p :: RowsInto(rel, xs, ys, p)
  }

  /** Like `NodesRelated`, but a Set may pass for a Map and a plain object for a Set. */
  ghost predicate LooselyRelated(lengthOf: LengthOf, rel: Relation, n: Node, m: Node) {
    Admitted(n, m) &&
    match m
    case ArrayNode(ys) => AllRelated(rel, n.elems, ys)
    case PlainNode(g) => FieldsRelated(rel, n.fields, g)
    case _ =>
      LeftRows(lengthOf, n, m).Some? && Into(rel, LeftRows(lengthOf, n, m).value, RightRows(m))
  }

  /** Related nodes pass the guards. */
  lemma RelatedAdmitted(rel: Relation, n: Node, m: Node)
    requires NodesRelated(rel, n, m)
    ensures Admitted(n, m)
  {
  }

  lemma RelatedLoosely(lengthOf: LengthOf, rel: Relation, n: Node, m: Node)
    ensures NodesRelated(rel, n, m) ==> LooselyRelated(lengthOf, rel, n, m)
    ensures SameKind(n, m) && LooselyRelated(lengthOf, rel, n, m) ==> NodesRelated(rel, n, m)
  {
    if NodesRelated(rel, n, m) { RelatedAdmitted(rel, n, m); }
    hide RowsInto, RowsRelated, FieldsRelated;
    if IsContainer(m) && SameKind(n, m) {
      var xs, ys := LeftRows(lengthOf, n, m).value, RightRows(m);
      MatchingIsInto(rel, xs, ys);
    }
  }

  lemma MatchingIsInto(rel: Relation, xs: seq<seq<Value>>, ys: seq<seq<Value>>)
    ensures RowsRelated(rel, xs, ys) <==> |xs| == |ys| && Into(rel, xs, ys)
  {
    hide AllRelated;
    if RowsRelated(rel, xs, ys) {
      var p :| RowMatching(rel, xs, ys, p);
      assert RowsInto(rel, xs, ys, p);
    }
    if |xs| == |ys| && Into(rel, xs, ys) {
      var p :| RowsInto(rel, xs, ys, p);
      assert RowMatching(rel, xs, ys, p);
    }
  }

  lemma LooselyMonotone(lengthOf: LengthOf, small: Relation, big: Relation, n: Node, m: Node)
    requires small <= big && LooselyRelated(lengthOf, small, n, m)
    ensures LooselyRelated(lengthOf, big, n, m)
  {
    hide LeftRows, RightRows, SizeField;
    if IsContainer(m) {
      var xs, ys := LeftRows(lengthOf, n, m).value, RightRows(m);
      var p :| RowsInto(small, xs, ys, p);
      assert RowsInto(big, xs, ys, p);
    }
  }

  /** Related containers have related rows. */
  lemma RelatedRows(lengthOf: LengthOf, rel: Relation, n: Node, m: Node)
    requires IsContainer(m) && LeftRows(lengthOf, n, m).Some?
    ensures NodesRelated(rel, n, m) ==> RowsRelated(rel, LeftRows(lengthOf, n, m).value, RightRows(m))
  {
    hide RowsRelated;
  }

  // ---------- which nodes can meet ----------

  predicate ValuesMeet(meet: Relation, a: Value, b: Value) {
    a.Object? && b.Object? ==> (a.ref, b.ref) in meet
  }

  predicate ListsMeet(meet: Relation, xs: seq<Value>, ys: seq<Value>) {
    forall i | 0 <= i < |xs| && i < |ys| :: ValuesMeet(meet, xs[i], ys[i])
  }

  predicate FieldsMeet(meet: Relation, f: map<string, Value>, g: map<string, Value>) {
    forall k | k in f && k in g :: ValuesMeet(meet, f[k], g[k])
  }

  predicate RowsMeet(meet: Relation, xs: seq<seq<Value>>, ys: seq<seq<Value>>) {
    forall i, j | 0 <= i < |xs| && 0 <= j < |ys| :: ListsMeet(meet, xs[i], ys[j])
  }

  /** Whatever comparing the contents of `n` and `m` can compare is in `meet`: elements at one
      index, fields under one key, and the same component of any row with any row. */
  predicate NodesMeet(lengthOf: LengthOf, meet: Relation, n: Node, m: Node) {
    Admitted(n, m) ==>
      match m
      case ArrayNode(ys) => ListsMeet(meet, n.elems, ys)
      case PlainNode(g) => FieldsMeet(meet, n.fields, g)
      case _ => LeftRows(lengthOf, n, m).Some? ==> RowsMeet(meet, LeftRows(lengthOf, n, m).value, RightRows(m))
  }

  /** A graph and a relation that holds every pair a comparison can reach from the pairs in it.
      A node is never compared with itself: identity is decided first. */
  datatype Scope = Scope(h: Heap, lengthOf: LengthOf, meet: Relation)

  predicate MeetsAt(sc: Scope, p: (Ref, Ref)) {
    p.0 in sc.h && p.1 in sc.h && (p.0 == p.1 || NodesMeet(sc.lengthOf, sc.meet, sc.h[p.0], sc.h[p.1]))
  }

  predicate Sound(sc: Scope) {
    Closed(sc.h) && forall p | p in sc.meet :: MeetsAt(sc, p)
  }

  /** The pair is reached whatever scope the comparison of `a` and `b` is put in. */
  ghost predicate Unavoidable(h: Heap, lengthOf: LengthOf, a: Value, b: Value, p: (Ref, Ref)) {
    forall meet: Relation | Sound(Scope(h, lengthOf, meet)) && ValuesMeet(meet, a, b) :: p in meet
  }

  /** The least such relation: the pairs that meet when `a` is compared with `b`. */
  ghost function Meetings(h: Heap, lengthOf: LengthOf, a: Value, b: Value): (meet: Relation) {
    set p | p in AllPairs(h) && Unavoidable(h, lengthOf, a, b, p)
  }

  ghost function ScopeOf(h: Heap, lengthOf: LengthOf, a: Value, b: Value): (sc: Scope) {
    Scope(h, lengthOf, Meetings(h, lengthOf, a, b))
  }

  lemma ScopeLeast(h: Heap, lengthOf: LengthOf, a: Value, b: Value, meet: Relation)
    requires Sound(Scope(h, lengthOf, meet)) && ValuesMeet(meet, a, b)
    ensures Meetings(h, lengthOf, a, b) <= meet
  {
    hide Sound;
    assert forall p | Unavoidable(h, lengthOf, a, b, p) :: p in meet;
  }

  /** Values that meet in every scope meet in the least one. */
  lemma MeetEverywhere(h: Heap, lengthOf: LengthOf, a: Value, b: Value, x: Value, y: Value)
    requires InHeap(h, x) && InHeap(h, y)
    requires forall meet: Relation | Sound(Scope(h, lengthOf, meet)) && ValuesMeet(meet, a, b) :: ValuesMeet(meet, x, y)
    ensures ValuesMeet(Meetings(h, lengthOf, a, b), x, y)
  {
    hide Sound;
    if x.Object? && y.Object? {
      var p := (x.ref, y.ref);
      assert p in AllPairs(h);
      forall meet: Relation | Sound(Scope(h, lengthOf, meet)) && ValuesMeet(meet, a, b) ensures p in meet {
        assert ValuesMeet(meet, x, y);
      }
      assert Unavoidable(h, lengthOf, a, b, p);
    }
  }

  lemma ScopeSound(h: Heap, lengthOf: LengthOf, a: Value, b: Value)
    requires Closed(h) && InHeap(h, a) && InHeap(h, b)
    ensures Sound(ScopeOf(h, lengthOf, a, b)) && ValuesMeet(Meetings(h, lengthOf, a, b), a, b)
  {
    hide Closed, Meetings, MeetsAt;
    MeetEverywhere(h, lengthOf, a, b, a, b);
    var meet := Meetings(h, lengthOf, a, b);
    forall p | p in meet ensures MeetsAt(Scope(h, lengthOf, meet), p) {
      ScopeSoundAt(h, lengthOf, a, b, p);
    }
  }

  lemma ScopeSoundAt(h: Heap, lengthOf: LengthOf, a: Value, b: Value, p: (Ref, Ref))
    requires Closed(h) && p in Meetings(h, lengthOf, a, b)
    ensures MeetsAt(ScopeOf(h, lengthOf, a, b), p)
  {
    assert p.0 in h && p.1 in h && Unavoidable(h, lengthOf, a, b, p);
    var n, m, meet := h[p.0], h[p.1], Meetings(h, lengthOf, a, b);
    assert NodeInHeap(h, n) && NodeInHeap(h, m);
    hide Closed, Meetings, SizeField, LeftRows, RightRows, NodeWithin, Sound;
    if p.0 != p.1 && Admitted(n, m) {
      forall other: Relation | Sound(Scope(h, lengthOf, other)) && ValuesMeet(other, a, b)
        ensures NodesMeet(lengthOf, other, n, m)
      {
        SoundAt(Scope(h, lengthOf, other), p);
      }
      hide Admitted;
      match m
      case ArrayNode(ys) => ArraysMeet(h, lengthOf, a, b, n, m);
      case PlainNode(g) => PlainsMeet(h, lengthOf, a, b, n, m);
      case _ => if LeftRows(lengthOf, n, m).Some? { ContainersMeet(h, lengthOf, a, b, n, m); }
    }
  }

  lemma SoundAt(sc: Scope, p: (Ref, Ref))
    requires Sound(sc) && p in sc.meet
    ensures MeetsAt(sc, p)
  {
  }

  /** In every scope of the comparison the contents of `n` and `m` meet. */
  ghost predicate MeetInAll(h: Heap, lengthOf: LengthOf, a: Value, b: Value, n: Node, m: Node) {
    forall meet: Relation | Sound(Scope(h, lengthOf, meet)) && ValuesMeet(meet, a, b) :: NodesMeet(lengthOf, meet, n, m)
  }

  lemma ArraysMeet(h: Heap, lengthOf: LengthOf, a: Value, b: Value, n: Node, m: Node)
    requires MeetInAll(h, lengthOf, a, b, n, m) && NodeInHeap(h, n) && NodeInHeap(h, m)
    requires m.ArrayNode? && Admitted(n, m)
    ensures ListsMeet(Meetings(h, lengthOf, a, b), n.elems, m.elems)
  {
    hide Sound, Meetings;
    forall i | 0 <= i < |n.elems| && i < |m.elems|
      ensures ValuesMeet(Meetings(h, lengthOf, a, b), n.elems[i], m.elems[i])
    {
      forall meet: Relation | Sound(Scope(h, lengthOf, meet)) && ValuesMeet(meet, a, b)
        ensures ValuesMeet(meet, n.elems[i], m.elems[i])
      {
        assert NodesMeet(lengthOf, meet, n, m);
      }
      MeetEverywhere(h, lengthOf, a, b, n.elems[i], m.elems[i]);
    }
  }

  lemma PlainsMeet(h: Heap, lengthOf: LengthOf, a: Value, b: Value, n: Node, m: Node)
    requires MeetInAll(h, lengthOf, a, b, n, m) && NodeInHeap(h, n) && NodeInHeap(h, m)
    requires m.PlainNode? && Admitted(n, m)
    ensures FieldsMeet(Meetings(h, lengthOf, a, b), n.fields, m.fields)
  {
    hide Sound, Meetings;
    forall k | k in n.fields && k in m.fields
      ensures ValuesMeet(Meetings(h, lengthOf, a, b), n.fields[k], m.fields[k])
    {
      forall meet: Relation | Sound(Scope(h, lengthOf, meet)) && ValuesMeet(meet, a, b)
        ensures ValuesMeet(meet, n.fields[k], m.fields[k])
      {
        assert NodesMeet(lengthOf, meet, n, m);
      }
      MeetEverywhere(h, lengthOf, a, b, n.fields[k], m.fields[k]);
    }
  }

  lemma ContainersMeet(h: Heap, lengthOf: LengthOf, a: Value, b: Value, n: Node, m: Node)
    requires MeetInAll(h, lengthOf, a, b, n, m) && NodeInHeap(h, n) && NodeInHeap(h, m)
    requires IsContainer(m) && Admitted(n, m) && LeftRows(lengthOf, n, m).Some?
    ensures RowsMeet(Meetings(h, lengthOf, a, b), LeftRows(lengthOf, n, m).value, RightRows(m))
  {
    LeftReady(lengthOf, h.Keys, n, m);
    RightReady(h.Keys, m);
    hide Sound, Meetings, LeftRows, RightRows, Admitted, NodeWithin;
    var xs, ys, least := LeftRows(lengthOf, n, m).value, RightRows(m), Meetings(h, lengthOf, a, b);
    forall i, j | 0 <= i < |xs| && 0 <= j < |ys| ensures ListsMeet(least, xs[i], ys[j]) {
      forall c | 0 <= c < |xs[i]| && c < |ys[j]| ensures ValuesMeet(least, xs[i][c], ys[j][c]) {
        forall meet: Relation | Sound(Scope(h, lengthOf, meet)) && ValuesMeet(meet, a, b)
          ensures ValuesMeet(meet, xs[i][c], ys[j][c])
        {
          assert NodesMeet(lengthOf, meet, n, m);
          assert ListsMeet(meet, xs[i], ys[j]);
        }
        assert AllWithin(h.Keys, xs[i]) && AllWithin(h.Keys, ys[j]);
        MeetEverywhere(h, lengthOf, a, b, xs[i][c], ys[j][c]);
      }
    }
  }

  /** Enclosed sets of nodes, one for each side, give a scope. */
  ghost function Across(left: set<Ref>, right: set<Ref>): (meet: Relation) {
    set r, s | r in left && s in right :: (r, s)
  }

  lemma AcrossMeets(lengthOf: LengthOf, left: set<Ref>, right: set<Ref>, meet: Relation, n: Node, m: Node)
    requires NodeWithin(left, n) && NodeWithin(right, m) && Across(left, right) <= meet
    ensures NodesMeet(lengthOf, meet, n, m)
  {
    if Admitted(n, m) && IsContainer(m) && LeftRows(lengthOf, n, m).Some? {
      LeftReady(lengthOf, left, n, m);
      RightReady(right, m);
      hide LeftRows, RightRows, SizeField;
      var xs, ys := LeftRows(lengthOf, n, m).value, RightRows(m);
      forall i, j | 0 <= i < |xs| && 0 <= j < |ys| ensures ListsMeet(meet, xs[i], ys[j]) {
        assert AllWithin(left, xs[i]) && AllWithin(right, ys[j]);
      }
    }
  }

  lemma AcrossSound(h: Heap, lengthOf: LengthOf, left: set<Ref>, right: set<Ref>)
    requires Closed(h) && Enclosed(h, left) && Enclosed(h, right)
    ensures Sound(Scope(h, lengthOf, Across(left, right)))
  {
    hide Closed, NodeWithin, NodesMeet;
    forall p | p in Across(left, right) ensures MeetsAt(Scope(h, lengthOf, Across(left, right)), p) {
      AcrossMeets(lengthOf, left, right, Across(left, right), h[p.0], h[p.1]);
    }
  }

  // ---------- confusion ----------

  ghost predicate Loosely(sc: Scope, rel: Relation, p: (Ref, Ref))
    requires Sound(sc) && p in sc.meet
  {
    assert MeetsAt(sc, p);
    p.0 == p.1 || LooselyRelated(sc.lengthOf, rel, sc.h[p.0], sc.h[p.1])
  }

  ghost predicate IsLoose(sc: Scope, rel: Relation)
    requires Sound(sc)
  {
    rel <= sc.meet && forall p | p in rel :: Loosely(sc, rel, p)
  }

  ghost predicate KindsAt(sc: Scope, p: (Ref, Ref))
    requires Sound(sc) && p in sc.meet
  {
    assert MeetsAt(sc, p);
    SameKind(sc.h[p.0], sc.h[p.1])
  }

  /** What passes the guards is of one kind. */
  ghost predicate OneKindAt(sc: Scope, p: (Ref, Ref))
    requires Sound(sc) && p in sc.meet
  {
    assert MeetsAt(sc, p);
    Admitted(sc.h[p.0], sc.h[p.1]) ==> SameKind(sc.h[p.0], sc.h[p.1])
  }

  ghost predicate ThrowsAt(sc: Scope, p: (Ref, Ref))
    requires Sound(sc) && p in sc.meet
  {
    assert MeetsAt(sc, p);
    Throws(sc.lengthOf, sc.h[p.0], sc.h[p.1])
  }

  ghost predicate KeepsKinds(sc: Scope, rel: Relation)
    requires Sound(sc) && rel <= sc.meet
  {
    forall p | p in rel :: KindsAt(sc, p)
  }

  /** No comparison in the scope throws, and even loosely no two nodes of different kinds are
      alike: neither a Set and a Map with matching rows, nor a plain object that reads like a Set. */
  ghost predicate Unconfused(sc: Scope)
    requires Sound(sc)
  {
    && (forall p | p in sc.meet :: !ThrowsAt(sc, p))
    && (forall rel: Relation | rel <= sc.meet && IsLoose(sc, rel) :: KeepsKinds(sc, rel))
  }

  /** If what passes the guards is always of one kind, nothing is confused. */
  lemma OneKindUnconfused(sc: Scope)
    requires Sound(sc) && forall p | p in sc.meet :: OneKindAt(sc, p)
    ensures Unconfused(sc)
  {
    hide Sound;
    forall p | p in sc.meet ensures !ThrowsAt(sc, p) { assert OneKindAt(sc, p); }
    hide Admitted, LeftRows, RightRows, SameKind;
    forall rel: Relation | rel <= sc.meet && IsLoose(sc, rel) ensures KeepsKinds(sc, rel) {
      forall p | p in rel ensures KindsAt(sc, p) {
        assert Loosely(sc, rel, p) && OneKindAt(sc, p);
        SoundAt(sc, p);
        if p.0 == p.1 { KindOfItself(sc.h[p.0]); }
      }
    }
  }

  lemma KindOfItself(n: Node)
    ensures SameKind(n, n)
  {
  }

  /** A smaller scope of the same graph is not more confused. */
  lemma UnconfusedShrinks(small: Scope, big: Scope)
    requires Sound(small) && Sound(big) && small.h == big.h && small.lengthOf == big.lengthOf && small.meet <= big.meet
    requires Unconfused(big)
    ensures Unconfused(small)
  {
    hide Sound, LooselyRelated, Throws, SameKind;
    forall p | p in small.meet ensures !ThrowsAt(small, p) {
      assert !ThrowsAt(big, p);
    }
    forall rel: Relation | rel <= small.meet && IsLoose(small, rel) ensures KeepsKinds(small, rel) {
      forall p | p in rel ensures Loosely(big, rel, p) { assert Loosely(small, rel, p); }
      assert KeepsKinds(big, rel);
      forall p | p in rel ensures KindsAt(small, p) { assert KindsAt(big, p); }
    }
  }

  // ---------- looking a bounded number of levels deep ----------

  ghost function Level(sc: Scope, k: nat): (rel: Relation)
    requires Sound(sc)
    ensures rel <= sc.meet
  {
    if k == 0 then sc.meet
    else
      var rel := Level(sc, k - 1);
      set p | p in rel && Loosely(sc, rel, p)
  }

  lemma LevelStep(sc: Scope, k: nat, p: (Ref, Ref))
    requires Sound(sc)
    ensures p in Level(sc, k + 1) <==> p in Level(sc, k) && Loosely(sc, Level(sc, k), p)
  {
    hide Loosely, Sound;
  }

  lemma AllRelatedMeeting(rel: Relation, meet: Relation, xs: seq<Value>, ys: seq<Value>)
    requires ListsMeet(meet, xs, ys) && AllRelated(rel, xs, ys)
    ensures AllRelated(rel * meet, xs, ys)
  {
    forall i | 0 <= i < |xs| ensures Related(rel * meet, xs[i], ys[i]) {
      assert ValuesMeet(meet, xs[i], ys[i]);
    }
  }

  lemma RowsMeeting(rel: Relation, meet: Relation, xs: seq<seq<Value>>, ys: seq<seq<Value>>)
    requires RowsMeet(meet, xs, ys) && RowsRelated(rel, xs, ys)
    ensures RowsRelated(rel * meet, xs, ys)
  {
    hide AllRelated, ListsMeet;
    var p :| RowMatching(rel, xs, ys, p);
    forall i | 0 <= i < |xs| ensures AllRelated(rel * meet, xs[i], ys[p[i]]) {
      AllRelatedMeeting(rel, meet, xs[i], ys[p[i]]);
    }
    assert RowMatching(rel * meet, xs, ys, p);
  }

  /** Related nodes are related through pairs that meet. */
  lemma NodesMeeting(lengthOf: LengthOf, rel: Relation, meet: Relation, n: Node, m: Node)
    requires NodesMeet(lengthOf, meet, n, m) && NodesRelated(rel, n, m)
    ensures NodesRelated(rel * meet, n, m)
  {
    RelatedAdmitted(rel, n, m);
    hide RowsRelated, SizeField, RowsMeet;
    match n
    case ArrayNode(xs) => AllRelatedMeeting(rel, meet, xs, m.elems);
    case PlainNode(f) =>
      forall k | k in f ensures Related(rel * meet, f[k], m.fields[k]) {
        assert ValuesMeet(meet, f[k], m.fields[k]);
      }
    case MapNode(_) => RowsMeeting(rel, meet, EntryRows(n), EntryRows(m));
    case SetNode(xs) => RowsMeeting(rel, meet, MemberRows(xs), MemberRows(m.members));
  }

  lemma {:induction false} LargestBelowLevel(sc: Scope, k: nat)
    requires Sound(sc)
    ensures Largest(sc.h) * sc.meet <= Level(sc, k)
  {
    hide NodesRelated, LooselyRelated, Largest, Closed, NodesMeet;
    if k > 0 {
      LargestBelowLevel(sc, k - 1);
      LargestIsBisimulation(sc.h);
      var low, rel := Largest(sc.h) * sc.meet, Level(sc, k - 1);
      forall p | p in low ensures p in Level(sc, k) {
        LevelStep(sc, k - 1, p);
        if p.0 != p.1 {
          assert MeetsAt(sc, p);
          var n, m := sc.h[p.0], sc.h[p.1];
          NodesMeeting(sc.lengthOf, Largest(sc.h), sc.meet, n, m);
          RelatedLoosely(sc.lengthOf, low, n, m);
          LooselyMonotone(sc.lengthOf, low, rel, n, m);
        }
      }
    }
  }

  /** Some level is a loose similarity. */
  lemma LevelSettles(sc: Scope) returns (k: nat)
    requires Sound(sc)
    ensures IsLoose(sc, Level(sc, k))
  {
    hide Loosely, Sound;
    var level := (i: nat) => if Sound(sc) then Level(sc, i) else {};
    forall i: nat ensures Shrinks(level, i) {
      assert Level(sc, i + 1) <= Level(sc, i) by { forall p { LevelStep(sc, i, p); } }
    }
    k := Settles(level);
    assert level(k + 1) == Level(sc, k + 1) && level(k) == Level(sc, k);
    forall p | p in Level(sc, k) ensures Loosely(sc, Level(sc, k), p) { LevelStep(sc, k, p); }
  }

  /** Without confusion the levels settle on bisimilarity. */
  lemma LevelIsLargest(sc: Scope) returns (k: nat)
    requires Sound(sc) && Unconfused(sc)
    ensures Level(sc, k) == Largest(sc.h) * sc.meet
  {
    hide Throws, LooselyRelated, NodesRelated, SameKind, Closed, NodesMeet, Largest, Level;
    k := LevelSettles(sc);
    var rel := Level(sc, k);
    assert KeepsKinds(sc, rel);
    var both := rel + Identity(sc.h);
    IdentityIsBisimulation(sc.h);
    forall p | p in both ensures p.0 in sc.h && p.1 in sc.h && NodesRelated(both, sc.h[p.0], sc.h[p.1]) {
      if p in rel && p.0 != p.1 {
        assert Loosely(sc, rel, p) && KindsAt(sc, p);
        RelatedLoosely(sc.lengthOf, rel, sc.h[p.0], sc.h[p.1]);
        NodesRelatedMonotone(rel, both, sc.h[p.0], sc.h[p.1]);
      } else {
        if p in rel { assert MeetsAt(sc, p); }
        assert (p.0, p.0) in Identity(sc.h) && p == (p.0, p.0);
        NodesRelatedMonotone(Identity(sc.h), both, sc.h[p.0], sc.h[p.1]);
      }
    }
    BelowLargest(sc.h, both);
    LargestBelowLevel(sc, k);
  }
}
