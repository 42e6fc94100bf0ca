/** JavaScript values and the object graph they point into.

    Objects have identity: a `Value` holds a reference and a `Heap` says what each
    reference currently is.  Graphs may share nodes and may be cyclic. */
module Values {

  datatype Number = NaN | NegZero | Finite(value: real) | Infinite(positive: bool)

  type Ref = nat

  datatype Value =
    | Undefined
    | Null
    | Boolean(b: bool)
    | Numeric(n: Number)
    | Text(s: string)
    | Object(ref: Ref)

  /** Map entries and Set members are kept in insertion order. */
  datatype Node =
    | ArrayNode(elems: seq<Value>)
    | PlainNode(fields: map<string, Value>)
    | MapNode(entries: seq<(Value, Value)>)
    | SetNode(members: seq<Value>)

  type Heap = map<Ref, Node>

  /** The `===` operator. */
  predicate StrictEqual(a: Value, b: Value) {
    if a.Numeric? && b.Numeric? then
      !a.n.NaN? && (a.n == b.n || (IsZero(a.n) && IsZero(b.n)))
    else
      a == b
  }

  predicate IsZero(n: Number) {
    n == NegZero || n == Finite(0.0)
  }

  /** `===`, except that NaN equals NaN. */
  predicate PrimitiveEqual(a: Value, b: Value) {
    StrictEqual(a, b) || (a == Numeric(NaN) && b == Numeric(NaN))
  }

  /** A value refers to nothing outside `refs`. */
  predicate Within(refs: set<Ref>, v: Value) {
    v.Object? ==> v.ref in refs
  }

  predicate NodeWithin(refs: set<Ref>, n: Node) {
    match n
    case ArrayNode(es) => forall i | 0 <= i < |es| :: Within(refs, es[i])
    case PlainNode(fs) => forall k | k in fs :: Within(refs, fs[k])
    case MapNode(es) => forall i | 0 <= i < |es| :: Within(refs, es[i].0) && Within(refs, es[i].1)
    case SetNode(ms) => forall i | 0 <= i < |ms| :: Within(refs, ms[i])
  }

  predicate InHeap(h: Heap, v: Value) {
    Within(h.Keys, v)
  }

  predicate NodeInHeap(h: Heap, n: Node) {
    NodeWithin(h.Keys, n)
  }

  /** No dangling references. */
  predicate Closed(h: Heap) {
    forall r | r in h :: NodeInHeap(h, h[r])
  }

  /** No reference leads out of `refs`. */
  ghost predicate Enclosed(h: Heap, refs: set<Ref>) {
    refs <= h.Keys && forall r | r in refs :: NodeWithin(refs, h[r])
  }

  predicate AllWithin(refs: set<Ref>, vs: seq<Value>) {
    forall i | 0 <= i < |vs| :: Within(refs, vs[i])
  }

  predicate RowsWithin(refs: set<Ref>, rows: seq<seq<Value>>) {
    forall i | 0 <= i < |rows| :: AllWithin(refs, rows[i])
  }

  /** The entries of a Map, or the `[v, v]` entries of a Set, one row each. */
  function EntryRows(n: Node): (rows: seq<seq<Value>>) {
    match n
    case MapNode(es) => seq(|es|, i requires 0 <= i < |es| => [es[i].0, es[i].1])
    case SetNode(ms) => seq(|ms|, i requires 0 <= i < |ms| => [ms[i], ms[i]])
    case _ => []
  }

  function MemberRows(ms: seq<Value>): (rows: seq<seq<Value>>) {
    seq(|ms|, i requires 0 <= i < |ms| => [ms[i]])
  }
}
