/** The canonical request line by line. */
module SigV4Text {
  import opened Text
  import opened Lexicographic
  import opened PairOrder
  import opened SigV4
  import QueryString

  // ---------- lines ----------

  function NameList(headers: Headers): (names: seq<string>)
    ensures |names| == |headers| && forall i | 0 <= i < |headers| :: names[i] == headers[i].0
  {
    seq(|headers|, i requires 0 <= i < |headers| => headers[i].0)
  }

  function LineList(headers: Headers): (lines: seq<string>)
    ensures |lines| == |headers| && forall i | 0 <= i < |headers| :: lines[i] == headers[i].0 + ":" + headers[i].1
  {
    seq(|headers|, i requires 0 <= i < |headers| => headers[i].0 + ":" + headers[i].1)
  }

  lemma LineFirst(headers: Headers, rest: string)
    requires headers != []
    ensures HeaderLines(headers) + rest ==
            (headers[0].0 + ":" + headers[0].1) + ['\n'] + (HeaderLines(headers[1..]) + rest)
  {
    var line, more := headers[0].0 + ":" + headers[0].1, HeaderLines(headers[1..]);
    assert HeaderLines(headers) == line + ['\n'] + more;
    hide HeaderLines;
    assert line + ['\n'] + more + rest == line + ['\n'] + (more + rest);
  }

  lemma NoLines(rest: string)
    ensures HeaderLines([]) + rest == rest && LineList([]) == []
  {
  }

  lemma LineListCons(headers: Headers)
    requires headers != []
    ensures LineList(headers) == [headers[0].0 + ":" + headers[0].1] + LineList(headers[1..])
  {
  }

  lemma OneLine(name: string, value: string)
    requires '\n' !in name && '\n' !in value
    ensures '\n' !in name + ":" + value
  {
  }

  lemma {:induction false} SplitHeaderLines(headers: Headers, rest: string)
    requires forall h | h in headers :: '\n' !in h.0 && '\n' !in h.1
    ensures SplitOn(HeaderLines(headers) + rest, '\n') == LineList(headers) + SplitOn(rest, '\n')
  {
    hide SplitOn, HeaderLines, LineList;
    if headers == [] {
      NoLines(rest);
      assert [] + SplitOn(rest, '\n') == SplitOn(rest, '\n');
    } else {
      assert headers[0] in headers;
      OneLine(headers[0].0, headers[0].1);
      LineFirst(headers, rest);
      LineListCons(headers);
      SplitFirst(headers[0].0 + ":" + headers[0].1, '\n', HeaderLines(headers[1..]) + rest);
      SplitHeaderLines(headers[1..], rest);
    }
  }

  lemma NamesOneLine(headers: Headers, c: char)
    requires c != ';' && forall h | h in headers :: c !in h.0
    ensures c !in SignedHeaders(headers)
  {
    var names := seq(|headers|, i requires 0 <= i < |headers| => headers[i].0);
    forall n | n in names ensures c !in n {
      var i :| 0 <= i < |headers| && names[i] == n;
      assert headers[i] in headers;
    }
    JoinChars(names, ";", c);
  }

  /** The lines of the canonical request: method, URI, query, one `name:value` for each header,
      an empty line, the header names, and the payload hash. */
  lemma RequestLines(c: Canonical)
    requires OneLiners(c)
    ensures SplitOn(Render(c), '\n') ==
            [c.httpMethod, c.uri, c.query] + LineList(c.headers) + ["", SignedHeaders(c.headers), c.payloadHash]
  {
    hide SplitOn, HeaderLines, SignedHeaders, Render, LineList;
    RenderLines(c);
    var tail := Tail(c);
    SplitFirst(c.httpMethod, '\n', c.uri + ['\n'] + (c.query + ['\n'] + tail));
    SplitFirst(c.uri, '\n', c.query + ['\n'] + tail);
    SplitFirst(c.query, '\n', tail);
    SplitHeaderLines(c.headers, "\n" + (SignedHeaders(c.headers) + "\n" + c.payloadHash));
    var end := SignedHeaders(c.headers) + ['\n'] + c.payloadHash;
    assert tail == HeaderLines(c.headers) + ("\n" + (SignedHeaders(c.headers) + "\n" + c.payloadHash));
    assert "\n" + (SignedHeaders(c.headers) + "\n" + c.payloadHash) == "" + ['\n'] + end;
    SplitFirst("", '\n', end);
    NamesOneLine(c.headers, '\n');
    SplitFirst(SignedHeaders(c.headers), '\n', c.payloadHash);
    SplitNone(c.payloadHash, '\n');
  }

  /** The line of names lists them in order, between semicolons. */
  lemma NamesListed(headers: Headers)
    requires headers != [] && forall h | h in headers :: ';' !in h.0
    ensures SplitOn(SignedHeaders(headers), ';') == NameList(headers)
  {
    hide SplitOn;
    forall n | n in NameList(headers) ensures ';' !in n {
      var i :| 0 <= i < |headers| && NameList(headers)[i] == n;
      assert headers[i] in headers;
    }
    assert SignedHeaders(headers) == Join(NameList(headers), ";");
    SplitJoin(NameList(headers), ';');
  }

  /** The request as text, from the parts it was made of. */
  lemma CanonicalText(upper: string -> string, p: Parts, c: Canonical)
    requires Lines(upper, p) && IsCanonical(upper, p, c)
    ensures SplitOn(Render(c), '\n') ==
            [upper(p.httpMethod), p.uri, CanonicalQuery(p.query)] + LineList(c.headers)
            + ["", SignedHeaders(c.headers), p.payloadHash]
    ensures (forall i | 0 <= i < |c.headers| :: ';' !in c.headers[i].0) ==>
              SplitOn(SignedHeaders(c.headers), ';') == NameList(c.headers)
    ensures forall i, j | 0 <= i < j < |c.headers| :: Less(c.headers[i].0, c.headers[j].0)
    ensures forall k :: k in NameList(c.headers) <==> k in SignedMap(p)
    ensures forall i | 0 <= i < |c.headers| ::
              c.headers[i].0 in SignedMap(p) && c.headers[i].1 == SignedMap(p)[c.headers[i].0]
  {
    hide SplitOn, Render, CanonicalQuery, SignedMap, OneLiners, Lines, SignedHeaders, Before, Less;
    CanonicalOneLiners(upper, p, c);
    RequestLines(c);
    ListsAllKeys(SignedMap(p), c.headers, NameList(c.headers));
    SignerSets(p);
    assert "host" in NameList(c.headers);
    if forall i | 0 <= i < |c.headers| :: ';' !in c.headers[i].0 { NamesListed(c.headers); }
    forall i, j | 0 <= i < j < |c.headers| ensures Less(c.headers[i].0, c.headers[j].0) {
      BeforeIsLess(c.headers[i].0, c.headers[j].0);
    }
  }

  // ---------- values ----------

  /** The value signed under a name is the trimmed values that were given for it, in order,
      between commas. */
  lemma ValuesListed(headers: Headers, k: string)
    requires k in Names(headers) && forall v | v in ValuesOf(headers, k) :: ',' !in v
    ensures k in Grouped(headers) && SplitOn(Grouped(headers)[k], ',') == ValuesOf(headers, k)
  {
    hide SplitOn, ValuesOf, Names;
    SomeValue(headers, k);
    SplitJoin(ValuesOf(headers, k), ',');
  }

  /** The headers that the signer sets have its values, whatever was given under their names. */
  lemma SignerSets(p: Parts)
    ensures var m := SignedMap(p);
            && "host" in m && m["host"] == p.host
            && "x-amz-content-sha256" in m && m["x-amz-content-sha256"] == p.payloadHash
            && "x-amz-date" in m && m["x-amz-date"] == p.amzDate
            && (p.token.Some? ==> "x-amz-security-token" in m && m["x-amz-security-token"] == p.token.value)
  {
    hide Grouped;
    DistinctNames();
  }

  predicate SetBySigner(k: string) {
    k in ["host", "x-amz-content-sha256", "x-amz-date", "x-amz-security-token"]
  }

  /** Of the other headers every one that was given is signed, except `authorization`. */
  lemma OthersSigned(p: Parts, k: string)
    requires !SetBySigner(k)
    ensures k in SignedMap(p) <==>
            k != "authorization" && exists i :: 0 <= i < |p.headers| && Lower(p.headers[i].0) == k
    ensures k in SignedMap(p) ==> k in Grouped(p.headers) && SignedMap(p)[k] == Grouped(p.headers)[k]
  {
    hide Lower, ValuesOf;
    assert k !in Overrides(p.host, p.payloadHash, p.amzDate, p.token);
  }

  lemma DistinctNames()
    ensures "host" != "x-amz-content-sha256" && "host" != "x-amz-date" && "host" != "x-amz-security-token"
    ensures "x-amz-content-sha256" != "x-amz-date" && "x-amz-content-sha256" != "x-amz-security-token"
    ensures "x-amz-date" != "x-amz-security-token"
  {
    assert "x-amz-content-sha256"[6] == 'c' && "x-amz-date"[6] == 'd' && "x-amz-security-token"[6] == 's';
  }

  // ---------- the query line ----------

  /** A piece without `=` gets one. */
  function Completed(piece: string): (s: string) {
    if '=' in piece then piece else piece + "="
  }

  /** The pieces that are not empty, completed. */
  function CompletedAll(pieces: seq<string>): (ss: seq<string>) {
    if pieces == [] then [] else (if pieces[0] == "" then [] else [Completed(pieces[0])]) + CompletedAll(pieces[1..])
  }

  lemma CompletedOnce(piece: string)
    ensures QueryString.Assignment(SplitOnce(piece)) == Completed(piece)
  {
    var i := IndexOf(piece, '=');
    if i < |piece| {
      assert piece == piece[..i] + "=" + piece[i + 1..] && piece[i] in piece;
    } else {
      assert piece + "=" + "" == piece + "=";
    }
  }

  lemma {:induction false} CompletedParsed(pieces: seq<string>)
    ensures QueryString.Assignments(ParsePieces(pieces)) == CompletedAll(pieces)
  {
    hide SplitOnce, Completed, QueryString.Assignment;
    if pieces != [] {
      CompletedParsed(pieces[1..]);
      var rest := ParsePieces(pieces[1..]);
      if pieces[0] != "" {
        CompletedOnce(pieces[0]);
        assert ParsePieces(pieces) == [SplitOnce(pieces[0])] + rest;
        assert QueryString.Assignments([SplitOnce(pieces[0])] + rest) ==
               [QueryString.Assignment(SplitOnce(pieces[0]))] + QueryString.Assignments(rest);
      } else {
        assert ParsePieces(pieces) == rest;
      }
    }
  }

  lemma {:induction false} InsertAssignments(ps: seq<Pair>, p: Pair)
    ensures multiset(QueryString.Assignments(InsertPair(ps, p))) ==
            multiset(QueryString.Assignments(ps)) + multiset{QueryString.Assignment(p)}
  {
    hide QueryString.Assignment, PairOrder.InOrder;
    if ps == [] || PairOrder.InOrder(p, ps[0]) {
      assert QueryString.Assignments([p] + ps) == [QueryString.Assignment(p)] + QueryString.Assignments(ps);
    } else {
      InsertAssignments(ps[1..], p);
      var rest := InsertPair(ps[1..], p);
      assert QueryString.Assignments([ps[0]] + rest) == [QueryString.Assignment(ps[0])] + QueryString.Assignments(rest);
      assert QueryString.Assignments(ps) == [QueryString.Assignment(ps[0])] + QueryString.Assignments(ps[1..]);
    }
  }

  lemma {:induction false} SortAssignments(ps: seq<Pair>)
    ensures multiset(QueryString.Assignments(Sort(ps))) == multiset(QueryString.Assignments(ps))
  {
    hide QueryString.Assignment;
    if ps != [] {
      SortAssignments(ps[1..]);
      InsertAssignments(Sort(ps[1..]), ps[0]);
      assert QueryString.Assignments(ps) == [QueryString.Assignment(ps[0])] + QueryString.Assignments(ps[1..]);
    } else {
      assert QueryString.Assignments(ps) == [];
    }
  }

  /** The canonical query is the pieces of the query that are not empty, each with an `=`, equally
      often, between `&` and in the order of keys and then values. */
  lemma QueryLine(query: string) returns (ps: seq<Pair>)
    ensures (forall p | p in ps :: '&' !in p.0 && '=' !in p.0 && '&' !in p.1)
    ensures forall i, j | 0 <= i < j < |ps| :: PairsAscend(ps[i], ps[j])
    ensures if ps == [] then CanonicalQuery(query) == ""
            else |SplitOn(CanonicalQuery(query), '&')| == |ps| &&
                 forall i | 0 <= i < |ps| :: SplitOn(CanonicalQuery(query), '&')[i] == ps[i].0 + "=" + ps[i].1
    ensures multiset(CompletedAll(SplitOn(query, '&'))) ==
            if ps == [] then multiset{} else multiset(SplitOn(CanonicalQuery(query), '&'))
  {
    hide SplitOn, ParsePieces, CompletedAll, Less, Before;
    ps := Sort(ParseQuery(query));
    SortedQueryUnambiguous(query);
    SortSorts(ParseQuery(query));
    forall i, j | 0 <= i < j < |ps| ensures PairsAscend(ps[i], ps[j]) { SortedAscends(ParseQuery(query), i, j); }
    CompletedParsed(SplitOn(query, '&'));
    SortAssignments(ParseQuery(query));
    if ps != [] {
      QueryString.PiecesClean(ps);
      SplitJoin(QueryString.Assignments(ps), '&');
    }
  }
}
