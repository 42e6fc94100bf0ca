/** `k=v` pairs joined with `&`, as both signing schemes write them. */
module QueryString {
  import opened Text
  import opened PairOrder

  function Assignment(p: Pair): (s: string) {
    p.0 + "=" + p.1
  }

  function Assignments(ps: seq<Pair>): (ss: seq<string>)
    ensures |ss| == |ps|
  {
    seq(|ps|, i requires 0 <= i < |ps| => Assignment(ps[i]))
  }

  function Print(ps: seq<Pair>): (s: string) {
    Join(Assignments(ps), "&")
  }

  /** The characters that would be read as structure do not occur where they matter. */
  predicate Unambiguous(p: Pair) {
    '&' !in p.0 && '=' !in p.0 && '&' !in p.1
  }

  lemma AssignmentInjective(p: Pair, q: Pair)
    requires Unambiguous(p) && Unambiguous(q) && Assignment(p) == Assignment(q)
    ensures p == q
  {
    FirstSeparator('=', p.0, p.1, q.0, q.1);
  }

  lemma {:induction false} JoinNonempty(ss: seq<string>, sep: string)
    requires ss != [] && ss[0] != ""
    ensures Join(ss, sep) != ""
  {
  }

  /** A printed list determines the list. */
  lemma PrintInjective(ps: seq<Pair>, qs: seq<Pair>)
    requires forall p | p in ps :: Unambiguous(p)
    requires forall q | q in qs :: Unambiguous(q)
    requires Print(ps) == Print(qs)
    ensures ps == qs
  {
    var ss, ts := Assignments(ps), Assignments(qs);
    PiecesClean(ps);
    PiecesClean(qs);
    if ps != [] && qs != [] {
      SplitJoin(ss, '&');
      SplitJoin(ts, '&');
      assert ss == ts;
      forall i | 0 <= i < |ps| ensures ps[i] == qs[i] {
        assert ss[i] == ts[i] && ps[i] in ps && qs[i] in qs;
        AssignmentInjective(ps[i], qs[i]);
      }
    } else {
      if ps != [] { JoinNonempty(ss, "&"); }
      if qs != [] { JoinNonempty(ts, "&"); }
    }
  }

  lemma PiecesClean(ps: seq<Pair>)
    requires forall p | p in ps :: Unambiguous(p)
    ensures forall s | s in Assignments(ps) :: '&' !in s && s != ""
  {
    forall s | s in Assignments(ps) ensures '&' !in s && s != "" {
      var i :| 0 <= i < |ps| && Assignments(ps)[i] == s;
      assert ps[i] in ps;
    }
  }
}
