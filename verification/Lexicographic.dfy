/** Code-unit order on strings, and sequences sorted by it. */
module Lexicographic {

  /** `a` comes strictly before `b`. */
  predicate Before(a: string, b: string) {
    if b == [] then false
    else if a == [] then true
    else if a[0] != b[0] then a[0] < b[0]
    else Before(a[1..], b[1..])
  }

  lemma {:induction false} BeforeTotal(a: string, b: string)
    ensures a == b || Before(a, b) || Before(b, a)
    ensures !(Before(a, b) && Before(b, a))
    ensures !Before(a, a)
  {
    if a != [] {
      BeforeTotal(a[1..], a[1..]);
      if b != [] {
        BeforeTotal(a[1..], b[1..]);
        if a[0] == b[0] && a[1..] == b[1..] {
          assert a == [a[0]] + a[1..] && b == [b[0]] + b[1..];
        }
      }
    }
  }

  lemma {:induction false} BeforeTransitive(a: string, b: string, c: string)
    requires Before(a, b) && Before(b, c)
    ensures Before(a, c)
  {
    if a != [] && a[0] == b[0] && b[0] == c[0] {
      BeforeTransitive(a[1..], b[1..], c[1..]);
    }
  }

  /** The first difference decides, or one is a proper beginning of the other. */
  ghost predicate Less(a: string, b: string) {
    exists i: nat :: LessAt(a, b, i)
  }

  predicate LessAt(a: string, b: string, i: nat) {
    i <= |a| && i < |b| && a[..i] == b[..i] && (i == |a| || a[i] < b[i])
  }

  lemma BeforeIsLess(a: string, b: string)
    ensures Before(a, b) <==> Less(a, b)
  {
    hide Before, LessAt;
    if Before(a, b) { var i := BeforeLess(a, b); }
    if Less(a, b) {
      var i: nat :| LessAt(a, b, i);
      LessBefore(a, b, i);
    }
  }

  lemma {:induction false} BeforeLess(a: string, b: string) returns (i: nat)
    requires Before(a, b)
    ensures LessAt(a, b, i)
  {
    i := 0;
    if a != "" && a[0] == b[0] {
      var j := BeforeLess(a[1..], b[1..]);
      i := j + 1;
      assert a[..i] == [a[0]] + a[1..][..j] && b[..i] == [b[0]] + b[1..][..j];
    }
  }

  lemma {:induction false} LessBefore(a: string, b: string, i: nat)
    requires LessAt(a, b, i)
    ensures Before(a, b)
    decreases i
  {
    if i > 0 {
      assert a[..i][0] == a[0] && b[..i][0] == b[0];
      assert a[..i][1..] == a[1..][..i - 1] && b[..i][1..] == b[1..][..i - 1];
      LessBefore(a[1..], b[1..], i - 1);
    }
  }

  predicate Ascending(ks: seq<string>) {
    forall i, j | 0 <= i < j < |ks| :: Before(ks[i], ks[j])
  }

  /** Two ascending lists of the same strings are the same list. */
  lemma {:induction false} AscendingUnique(ks: seq<string>, ls: seq<string>)
    requires Ascending(ks) && Ascending(ls)
    requires forall k :: k in ks <==> k in ls
    ensures ks == ls
  {
    if ks == [] || ls == [] {
      EmptyOrNot(ks);
      EmptyOrNot(ls);
    } else {
      SameFirst(ks, ls);
      forall k ensures k in ks[1..] <==> k in ls[1..] {
        NotRepeated(ks, k);
        NotRepeated(ls, k);
      }
      AscendingUnique(ks[1..], ls[1..]);
      assert ks == [ks[0]] + ks[1..] && ls == [ls[0]] + ls[1..];
    }
  }

  lemma EmptyOrNot(ks: seq<string>)
    ensures ks != [] ==> exists k :: k in ks
  {
    if ks != [] { assert ks[0] in ks; }
  }

  lemma NotRepeated(ks: seq<string>, k: string)
    requires Ascending(ks) && ks != []
    ensures k in ks[1..] <==> k in ks && k != ks[0]
  {
    if k in ks[1..] {
      var i :| 0 <= i < |ks[1..]| && ks[1..][i] == k;
      assert ks[i + 1] == k && Before(ks[0], ks[i + 1]);
      BeforeTotal(k, k);
    } else {
      assert ks == [ks[0]] + ks[1..];
    }
  }

  lemma SameFirst(ks: seq<string>, ls: seq<string>)
    requires Ascending(ks) && Ascending(ls) && ks != [] && ls != []
    requires forall k :: k in ks <==> k in ls
    ensures ks[0] == ls[0]
  {
    assert ks[0] in ls && ls[0] in ks;
    var i :| 0 <= i < |ls| && ls[i] == ks[0];
    var j :| 0 <= j < |ks| && ks[j] == ls[0];
    if i > 0 && j > 0 {
      assert Before(ls[0], ls[i]) && Before(ks[0], ks[j]);
      BeforeTotal(ks[0], ls[0]);
    }
  }

  /** The keys of a map in code-unit order (`Object.keys(o).sort()`). */
  method SortedKeys<T>(m: map<string, T>) returns (ks: seq<string>)
    ensures Ascending(ks)
    ensures forall k :: k in ks <==> k in m
    ensures |ks| == |m|
  {
    ks := [];
    var rest := m.Keys;
    while rest != {}
      invariant rest <= m.Keys
      invariant Ascending(ks)
      invariant forall k :: k in ks <==> k in m.Keys - rest
      invariant |ks| + |rest| == |m|
      decreases |rest|
    {
      var k :| k in rest;
      ks := Insert(ks, k);
      rest := rest - {k};
    }
  }

  function Insert(ks: seq<string>, k: string): (r: seq<string>)
    requires Ascending(ks) && k !in ks
    ensures Ascending(r)
    ensures forall x :: x in r <==> x == k || x in ks
    ensures |r| == |ks| + 1
  {
    if ks == [] then [k]
    else if Before(k, ks[0]) then
      assert Ascending([k] + ks) by {
        forall j | 0 <= j < |ks| ensures Before(k, ks[j]) {
          if j > 0 { BeforeTransitive(k, ks[0], ks[j]); }
        }
      }
      [k] + ks
    else
      var rest := Insert(ks[1..], k);
      assert Ascending([ks[0]] + rest) by {
        BeforeTotal(k, ks[0]);
        forall j | 0 <= j < |rest| ensures Before(ks[0], rest[j]) {
          assert rest[j] in rest;
        }
      }
      assert ks == [ks[0]] + ks[1..];
      [ks[0]] + rest
  }

  /** The one ascending list of the given strings. */
  ghost function InOrder(keys: set<string>): (ks: seq<string>)
    ensures Ascending(ks) && forall k :: k in ks <==> k in keys
  {
    if keys == {} then []
    else
      var k :| k in keys;
      Insert(InOrder(keys - {k}), k)
  }
}
