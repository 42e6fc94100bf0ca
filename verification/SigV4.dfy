/** The AWS Signature Version 4 canonical request. */
module SigV4 {
  import opened Text
  import opened Lexicographic
  import opened PairOrder
  import QueryString
  import opened FiniteSets

  // ---------- Trimall ----------

  /** `split_whitespace` */
  function Words(s: string): (ws: seq<string>)
    decreases |s|
  {
    var t := TrimStart(s);
    if t == [] then []
    else
      var i := IndexOfSpace(t);
      [t[..i]] + Words(t[i..])
  }

  function TrimAll(value: string): (s: string) {
    Join(Words(value), " ")
  }

  predicate IsWord(w: string) {
    w != [] && forall i | 0 <= i < |w| :: !IsWhitespace(w[i])
  }

  lemma {:induction false} WordsAreWords(s: string)
    ensures forall w | w in Words(s) :: IsWord(w)
    decreases |s|
  {
    var t := TrimStart(s);
    if t != [] {
      var i := IndexOfSpace(t);
      WordsAreWords(t[i..]);
    }
  }

  lemma {:induction false} WordsOfJoin(ws: seq<string>)
    requires forall w | w in ws :: IsWord(w)
    ensures Words(Join(ws, " ")) == ws
  {
    if ws == [] {
      NoWords();
    } else {
      hide Words, IsWord, Join;
      assert ws[0] in ws;
      var rest := ws[1..];
      WordsOfJoin(rest);
      JoinCons(ws);
      if rest == [] {
        LastWord(ws[0]);
      } else {
        NextWord(ws[0], Join(rest, " "));
      }
      assert ws == [ws[0]] + rest;
    }
  }

  lemma JoinCons(ws: seq<string>)
    requires ws != []
    ensures Join(ws, " ") == if |ws| == 1 then ws[0] else ws[0] + " " + Join(ws[1..], " ")
  {
  }

  lemma LastWord(w: string)
    requires IsWord(w)
    ensures Words(w) == [w]
  {
    hide Words, IsWord;
    FirstWord(w, "");
    NoWords();
    assert w + "" == w && [w] + [] == [w];
  }

  lemma NextWord(w: string, rest: string)
    requires IsWord(w)
    ensures Words(w + " " + rest) == [w] + Words(rest)
  {
    hide Words, IsWord;
    FirstWord(w, " " + rest);
    LeadingSpace(rest);
    assert w + " " + rest == w + (" " + rest);
  }

  lemma NoWords()
    ensures Words("") == []
  {
  }

  lemma FirstWord(w: string, rest: string)
    requires IsWord(w) && (rest == "" || IsWhitespace(rest[0]))
    ensures Words(w + rest) == [w] + Words(rest)
  {
    var s := w + rest;
    assert s[0] == w[0];
    assert IndexOfSpace(s) == |w| by {
      assert forall j | 0 <= j < |w| :: s[j] == w[j];
      assert rest != "" ==> s[|w|] == rest[0];
    }
    assert s[..|w|] == w && s[|w|..] == rest;
  }

  lemma LeadingSpace(s: string)
    ensures Words(" " + s) == Words(s)
  {
    assert (" " + s)[1..] == s;
  }

  /** All whitespace is single spaces between words. */
  predicate SingleSpaced(s: string) {
    forall i | 0 <= i < |s| && IsWhitespace(s[i]) ::
      s[i] == ' ' && 0 < i < |s| - 1 && !IsWhitespace(s[i - 1]) && !IsWhitespace(s[i + 1])
  }

  /** Trimall keeps the words, and its result contains no whitespace other than single spaces
      between them; it leaves alone exactly the values that are so already. */
  lemma TrimAllNormal(value: string)
    ensures TrimAll(TrimAll(value)) == TrimAll(value) && Words(TrimAll(value)) == Words(value)
    ensures SingleSpaced(TrimAll(value)) && Trimmed(TrimAll(value)) && '\n' !in TrimAll(value)
    ensures TrimAll(value) == value <==> SingleSpaced(value)
  {
    hide SingleSpaced, IsWord;
    WordsAreWords(value);
    WordsOfJoin(Words(value));
    JoinedWords(Words(value));
    SingleSpacedEnds(TrimAll(value));
    if SingleSpaced(value) { SingleSpacedFixed(value); }
  }

  lemma SingleSpacedEnds(s: string)
    requires SingleSpaced(s)
    ensures Trimmed(s) && '\n' !in s
  {
    assert IsWhitespace('\n');
    hide IsWhitespace;
  }

  lemma {:induction false} JoinedWords(ws: seq<string>)
    requires forall w | w in ws :: IsWord(w)
    ensures SingleSpaced(Join(ws, " "))
    ensures ws != [] ==> Join(ws, " ") != "" && !IsWhitespace(Join(ws, " ")[0])
  {
    hide IsWhitespace;
    if ws != [] {
      assert IsWord(ws[0]) by { assert ws[0] in ws; }
      JoinedWords(ws[1..]);
      JoinCons(ws);
      hide Join;
      if |ws| > 1 { SpacedCons(ws[0], Join(ws[1..], " ")); }
    }
  }

  lemma SpacedCons(w: string, rest: string)
    requires IsWord(w) && SingleSpaced(rest) && rest != "" && !IsWhitespace(rest[0])
    ensures SingleSpaced(w + " " + rest)
  {
    hide IsWhitespace;
    var s, n := w + " " + rest, |w| + 1;
    forall i | 0 <= i < |s| && IsWhitespace(s[i])
      ensures s[i] == ' ' && 0 < i < |s| - 1 && !IsWhitespace(s[i - 1]) && !IsWhitespace(s[i + 1])
    {
      if i >= n { assert s[i] == rest[i - n]; }
    }
  }

  lemma {:induction false} SingleSpacedFixed(s: string)
    requires SingleSpaced(s)
    ensures TrimAll(s) == s
    decreases |s|
  {
    hide IsWhitespace, Words, Join;
    var i := IndexOfSpace(s);
    NoJoin();
    if s == "" {
      NoWords();
    } else if i == |s| {
      LastWord(s);
      JoinCons([s]);
    } else {
      var w, rest := s[..i], s[i + 1..];
      assert s == w + " " + rest;
      forall j | 0 <= j < |rest| && IsWhitespace(rest[j])
        ensures rest[j] == ' ' && 0 < j < |rest| - 1 && !IsWhitespace(rest[j - 1]) && !IsWhitespace(rest[j + 1])
      {
        assert rest[j] == s[i + 1 + j];
      }
      SingleSpacedFixed(rest);
      NextWord(w, rest);
      assert ([w] + Words(rest))[1..] == Words(rest);
      JoinCons([w] + Words(rest));
    }
  }

  lemma NoJoin()
    ensures Join([], " ") == ""
  {
  }

  // ---------- the canonical query ----------

  function SplitOnce(s: string): (p: Pair) {
    var i := IndexOf(s, '=');
    if i == |s| then (s, "") else (s[..i], s[i + 1..])
  }

  function ParsePieces(pieces: seq<string>): (ps: seq<Pair>) {
    if pieces == [] then []
    else (if pieces[0] == "" then [] else [SplitOnce(pieces[0])]) + ParsePieces(pieces[1..])
  }

  function ParseQuery(query: string): (ps: seq<Pair>) {
    ParsePieces(SplitOn(query, '&'))
  }

  function CanonicalQuery(query: string): (s: string) {
    QueryString.Print(Sort(ParseQuery(query)))
  }

  lemma {:induction false} PiecesUnambiguous(pieces: seq<string>)
    requires forall s | s in pieces :: '&' !in s
    ensures forall p | p in ParsePieces(pieces) :: QueryString.Unambiguous(p)
  {
    if pieces != [] {
      assert pieces[0] in pieces;
      PiecesUnambiguous(pieces[1..]);
    }
  }

  lemma SortedQueryUnambiguous(query: string)
    ensures forall p | p in Sort(ParseQuery(query)) :: QueryString.Unambiguous(p)
  {
    JoinSplit(query, '&');
    PiecesUnambiguous(SplitOn(query, '&'));
    SortSorts(ParseQuery(query));
    forall p | p in Sort(ParseQuery(query)) ensures QueryString.Unambiguous(p) {
      assert p in multiset(Sort(ParseQuery(query)));
    }
  }

  /** Two queries have the same canonical form exactly when they hold the same pairs,
      equally often, in whatever order. */
  lemma CanonicalQueryExact(q: string, r: string)
    ensures CanonicalQuery(q) == CanonicalQuery(r) <==> multiset(ParseQuery(q)) == multiset(ParseQuery(r))
  {
    SortIsMultiset(ParseQuery(q), ParseQuery(r));
    if CanonicalQuery(q) == CanonicalQuery(r) {
      SortedQueryUnambiguous(q);
      SortedQueryUnambiguous(r);
      QueryString.PrintInjective(Sort(ParseQuery(q)), Sort(ParseQuery(r)));
    }
  }

  lemma ParseAssignment(p: Pair)
    requires QueryString.Unambiguous(p)
    ensures SplitOnce(QueryString.Assignment(p)) == p && QueryString.Assignment(p) != ""
  {
    IndexAfter(p.0, '=', p.1);
  }

  lemma {:induction false} ParseAssignments(ps: seq<Pair>)
    requires forall p | p in ps :: QueryString.Unambiguous(p)
    ensures ParsePieces(QueryString.Assignments(ps)) == ps
  {
    if ps != [] {
      assert ps[0] in ps;
      ParseAssignment(ps[0]);
      ParseAssignments(ps[1..]);
      assert QueryString.Assignments(ps)[1..] == QueryString.Assignments(ps[1..]);
      assert ps == [ps[0]] + ps[1..];
    }
  }

  lemma ParsePrint(ps: seq<Pair>)
    requires forall p | p in ps :: QueryString.Unambiguous(p)
    ensures ParseQuery(QueryString.Print(ps)) == ps
  {
    if ps == [] {
      assert SplitOn("", '&') == [""];
      assert [""][1..] == [];
    } else {
      QueryString.PiecesClean(ps);
      SplitJoin(QueryString.Assignments(ps), '&');
      ParseAssignments(ps);
    }
  }

  /** Canonicalising twice changes nothing. */
  lemma CanonicalQueryIdempotent(query: string)
    ensures CanonicalQuery(CanonicalQuery(query)) == CanonicalQuery(query)
  {
    SortedQueryUnambiguous(query);
    ParsePrint(Sort(ParseQuery(query)));
    SortSorts(ParseQuery(query));
    SortIsMultiset(Sort(ParseQuery(query)), ParseQuery(query));
  }

  // ---------- the canonical headers ----------

  type Headers = seq<(string, string)>

  /** The trimmed values given for a lower-cased name, in order. */
  function ValuesOf(headers: Headers, key: string): (vs: seq<string>) {
    if headers == [] then [] else
      var (name, value) := headers[|headers| - 1];
      ValuesOf(headers[..|headers| - 1], key) + (if Lower(name) == key then [TrimAll(value)] else [])
  }

  function Names(headers: Headers): (ks: set<string>) {
    set i | 0 <= i < |headers| && Lower(headers[i].0) != "authorization" :: Lower(headers[i].0)
  }

  function Overrides(host: string, payloadHash: string, amzDate: string, token: Option<string>)
    : (m: map<string, string>)
  {
    map["host" := host, "x-amz-content-sha256" := payloadHash, "x-amz-date" := amzDate]
    + (if token.Some? then map["x-amz-security-token" := token.value] else map[])
  }

  function Grouped(headers: Headers): (m: map<string, string>) {
    map k | k in Names(headers) :: Join(ValuesOf(headers, k), ",")
  }

  /** What is signed: every header but `authorization` under its lower-cased name, its
      values joined with bare commas, and the four that the signer sets itself. */
  function HeaderMap(host: string, headers: Headers, payloadHash: string, amzDate: string, token: Option<string>)
    : (m: map<string, string>)
  {
    Grouped(headers) + Overrides(host, payloadHash, amzDate, token)
  }

  /** The entries of a map in key order. */
  ghost predicate Lists(m: map<string, string>, entries: Headers) {
    && |entries| == |m|
    && (forall i | 0 <= i < |entries| :: entries[i].0 in m && entries[i].1 == m[entries[i].0])
    && (forall i, j | 0 <= i < j < |entries| :: Before(entries[i].0, entries[j].0))
  }

  method CanonicalHeaders(host: string, headers: Headers, payloadHash: string, amzDate: string, token: Option<string>)
    returns (entries: Headers)
    ensures Lists(HeaderMap(host, headers, payloadHash, amzDate, token), entries)
  {
    hide Grouped, Lists;
    var out := GroupHeaders(headers);
    out := out["host" := host];
    out := out["x-amz-content-sha256" := payloadHash];
    out := out["x-amz-date" := amzDate];
    if token.Some? { out := out["x-amz-security-token" := token.value]; }
    SetOneByOne(Grouped(headers), host, payloadHash, amzDate, token);
    entries := ListEntries(out);
  }

  lemma SetOneByOne(m: map<string, string>, host: string, payloadHash: string, amzDate: string, token: Option<string>)
    ensures var n := m["host" := host]["x-amz-content-sha256" := payloadHash]["x-amz-date" := amzDate];
            m + Overrides(host, payloadHash, amzDate, token) ==
            if token.Some? then n["x-amz-security-token" := token.value] else n
  {
  }

  /** The grouping loop over the given headers. */
  method GroupHeaders(headers: Headers) returns (out: map<string, string>)
    ensures out == Grouped(headers)
  {
    hide Names, ValuesOf, TrimAll, Lower;
    var grouped: map<string, seq<string>> := map[];
    NoHeaders();
    assert headers[..0] == [];
    for i := 0 to |headers|
      invariant grouped.Keys == Names(headers[..i])
      invariant forall k | k in grouped :: grouped[k] == ValuesOf(headers[..i], k)
    {
      var (name, value) := headers[i];
      var key := Lower(name);
      NamesStep(headers, i);
      ghost var before := grouped;
      forall k | k in grouped || k == key
        ensures ValuesOf(headers[..i + 1], k) == ValuesOf(headers[..i], k) + (if key == k then [TrimAll(value)] else [])
      {
        ValuesStep(headers, i, k);
      }
      if key == "authorization" {
        NoAuthorization(headers[..i]);
        assert forall k | k in grouped :: ValuesOf(headers[..i], k) + [] == ValuesOf(headers[..i], k);
        continue;
      }
      if key !in grouped { NoValues(headers[..i], key); }
      grouped := grouped[key := (if key in grouped then grouped[key] else []) + [TrimAll(value)]];
      assert forall k | k in before :: ValuesOf(headers[..i], k) + [] == ValuesOf(headers[..i], k);
    }
    assert headers[..|headers|] == headers;
    forall k | k in grouped ensures grouped[k] != [] { SomeValue(headers, k); }
    out := map k | k in grouped && grouped[k] != [] :: Join(grouped[k], ",");
  }

  lemma NoHeaders()
    ensures Names([]) == {}
  {
  }

  lemma NoAuthorization(headers: Headers)
    ensures "authorization" !in Names(headers)
  {
  }

  method ListEntries(m: map<string, string>) returns (entries: Headers)
    ensures Lists(m, entries)
  {
    var ks := SortedKeys(m);
    entries := [];
    for i := 0 to |ks|
      invariant |entries| == i
      invariant forall j | 0 <= j < i :: entries[j] == (ks[j], if ks[j] in m then m[ks[j]] else "")
    {
      assert ks[i] in ks;
      entries := entries + [(ks[i], m[ks[i]])];
    }
    assert forall j | 0 <= j < |ks| :: ks[j] in ks;
  }

  lemma NamesStep(headers: Headers, i: nat)
    requires i < |headers|
    ensures Names(headers[..i + 1]) ==
            Names(headers[..i]) + (if Lower(headers[i].0) != "authorization" then {Lower(headers[i].0)} else {})
  {
    var h, g := headers[..i], headers[..i + 1];
    assert forall j | 0 <= j < i :: h[j] == g[j];
    assert g[i] == headers[i];
  }

  lemma ValuesStep(headers: Headers, i: nat, k: string)
    requires i < |headers|
    ensures ValuesOf(headers[..i + 1], k) ==
            ValuesOf(headers[..i], k) + (if Lower(headers[i].0) == k then [TrimAll(headers[i].1)] else [])
  {
    hide Lower, TrimAll;
    assert headers[..i + 1][..i] == headers[..i];
    assert headers[..i + 1][i] == headers[i];
  }

  lemma {:induction false} NoValues(headers: Headers, key: string)
    requires key !in Names(headers) && key != "authorization"
    ensures ValuesOf(headers, key) == []
  {
    hide Lower, TrimAll, Names;
    if headers != [] {
      var front := headers[..|headers| - 1];
      NamesStep(headers, |headers| - 1);
      assert headers[..|headers|] == headers;
      NoValues(front, key);
    }
  }

  lemma {:induction false} SomeValue(headers: Headers, key: string)
    requires key in Names(headers)
    ensures ValuesOf(headers, key) != []
  {
    hide Lower, TrimAll;
    var last := |headers| - 1;
    NamesStep(headers, last);
    assert headers[..|headers|] == headers;
    if Lower(headers[last].0) != key { SomeValue(headers[..last], key); }
  }

  /** A map has only one listing. */
  lemma ListingUnique(m: map<string, string>, es: Headers, fs: Headers)
    requires Lists(m, es) && Lists(m, fs)
    ensures es == fs
  {
    var ks := seq(|es|, i requires 0 <= i < |es| => es[i].0);
    var ls := seq(|fs|, i requires 0 <= i < |fs| => fs[i].0);
    ListsAllKeys(m, es, ks);
    ListsAllKeys(m, fs, ls);
    AscendingUnique(ks, ls);
    forall i | 0 <= i < |es| ensures es[i] == fs[i] {
      assert ks[i] == ls[i];
    }
  }

  lemma ListsAllKeys(m: map<string, string>, es: Headers, ks: seq<string>)
    requires Lists(m, es) && |ks| == |es| && forall i | 0 <= i < |es| :: ks[i] == es[i].0
    ensures Ascending(ks) && forall k :: k in ks <==> k in m
  {
    var s := set i | 0 <= i < |ks| :: ks[i];
    AscendingSize(ks);
    assert s <= m.Keys;
    assert |s| == |m.Keys|;
    if exists k :: k in m && k !in s {
      var k :| k in m && k !in s;
      SubsetSize(s + {k}, m.Keys);
    }
    assert forall k :: k in ks <==> k in s;
  }

  lemma {:induction false} AscendingSize(ks: seq<string>)
    requires Ascending(ks)
    ensures |set i | 0 <= i < |ks| :: ks[i]| == |ks|
  {
    if ks != [] {
      var front, last := ks[..|ks| - 1], ks[|ks| - 1];
      AscendingSize(front);
      var s := set i | 0 <= i < |front| :: front[i];
      assert (set i | 0 <= i < |ks| :: ks[i]) == s + {last};
      forall i | 0 <= i < |front| ensures front[i] != last {
        assert Before(ks[i], ks[|ks| - 1]);
        BeforeTotal(front[i], last);
      }
    }
  }

  /** The signed headers depend on the given ones only through the values under each
      name: the case of names and the order of differently named headers do not matter. */
  lemma HeaderMapByName(host: string, hs: Headers, gs: Headers, payloadHash: string, amzDate: string,
                        token: Option<string>)
    requires forall k :: ValuesOf(hs, k) == ValuesOf(gs, k)
    ensures HeaderMap(host, hs, payloadHash, amzDate, token) == HeaderMap(host, gs, payloadHash, amzDate, token)
  {
    forall k | k in Names(hs) ensures k in Names(gs) {
      SomeValue(hs, k);
      if k !in Names(gs) { NoValues(gs, k); }
    }
    forall k | k in Names(gs) ensures k in Names(hs) {
      SomeValue(gs, k);
      if k !in Names(hs) { NoValues(hs, k); }
    }
    assert Grouped(hs) == Grouped(gs);
  }

  lemma {:induction false} ValuesConcat(hs: Headers, gs: Headers, key: string)
    ensures ValuesOf(hs + gs, key) == ValuesOf(hs, key) + ValuesOf(gs, key)
    decreases |gs|
  {
    hide Lower, TrimAll;
    if gs == [] {
      assert hs + gs == hs;
    } else {
      var front := gs[..|gs| - 1];
      ValuesConcat(hs, front, key);
      assert (hs + gs)[..|hs + gs| - 1] == hs + front;
    }
  }

  lemma ValuesMiddle(pre: Headers, mid: Headers, post: Headers, key: string)
    ensures ValuesOf(pre + mid + post, key) == ValuesOf(pre, key) + ValuesOf(mid, key) + ValuesOf(post, key)
  {
    hide ValuesOf;
    ValuesConcat(pre + mid, post, key);
    ValuesConcat(pre, mid, key);
  }

  /** Swapping two neighbours with different names, and changing the case of a name. */
  lemma OrderAndCaseIgnored(pre: Headers, a: (string, string), b: (string, string), post: Headers, recased: string,
                            key: string)
    ensures Lower(a.0) != Lower(b.0) ==> ValuesOf(pre + [a, b] + post, key) == ValuesOf(pre + [b, a] + post, key)
    ensures Lower(recased) == Lower(a.0) ==>
              ValuesOf(pre + [a] + post, key) == ValuesOf(pre + [(recased, a.1)] + post, key)
  {
    hide ValuesOf, Lower, TrimAll;
    ValuesMiddle(pre, [a, b], post, key);
    ValuesMiddle(pre, [b, a], post, key);
    ValuesMiddle(pre, [a], post, key);
    ValuesMiddle(pre, [(recased, a.1)], post, key);
    assert [a, b] == [a] + [b] && [b, a] == [b] + [a];
    ValuesConcat([a], [b], key);
    ValuesConcat([b], [a], key);
    OneValue(a, key);
    OneValue(b, key);
    OneValue((recased, a.1), key);
  }

  lemma OneValue(h: (string, string), key: string)
    ensures ValuesOf([h], key) == if Lower(h.0) == key then [TrimAll(h.1)] else []
  {
    hide Lower, TrimAll;
    assert [h][..0] == [];
  }

  // ---------- the canonical request ----------

  datatype Canonical = Canonical(httpMethod: string, uri: string, query: string, headers: Headers, payloadHash: string)

  function HeaderLines(headers: Headers): (s: string) {
    if headers == [] then "" else headers[0].0 + ":" + headers[0].1 + "\n" + HeaderLines(headers[1..])
  }

  function SignedHeaders(headers: Headers): (s: string) {
    Join(seq(|headers|, i requires 0 <= i < |headers| => headers[i].0), ";")
  }

  /** The canonical request; the method is already upper-cased and the query canonical. */
  function Render(c: Canonical): (s: string) {
    c.httpMethod + "\n" + c.uri + "\n" + c.query + "\n" + HeaderLines(c.headers) + "\n"
    + SignedHeaders(c.headers) + "\n" + c.payloadHash
  }

  /** No part contains a line break and no header name a colon. */
  predicate OneLiners(c: Canonical) {
    && '\n' !in c.httpMethod && '\n' !in c.uri && '\n' !in c.query && '\n' !in c.payloadHash
    && forall h | h in c.headers :: '\n' !in h.0 && ':' !in h.0 && '\n' !in h.1
  }

  /** Header lines followed by an empty line can be read back. */
  lemma {:induction false} HeaderLinesInjective(hs: Headers, x: string, gs: Headers, y: string)
    requires forall h | h in hs :: '\n' !in h.0 && ':' !in h.0 && '\n' !in h.1
    requires forall g | g in gs :: '\n' !in g.0 && ':' !in g.0 && '\n' !in g.1
    requires HeaderLines(hs) + "\n" + x == HeaderLines(gs) + "\n" + y
    ensures hs == gs && x == y
  {
    var s, t := HeaderLines(hs) + "\n" + x, HeaderLines(gs) + "\n" + y;
    if hs == [] || gs == [] {
      EmptyLineFirst(hs, x);
      EmptyLineFirst(gs, y);
      assert x == s[|HeaderLines(hs)| + 1..] && y == t[|HeaderLines(gs)| + 1..];
    } else {
      hide HeaderLines;
      assert hs[0] in hs && gs[0] in gs;
      var a, b := hs[0].0 + ":" + hs[0].1, gs[0].0 + ":" + gs[0].1;
      LinesCons(hs, x);
      LinesCons(gs, y);
      FirstSeparator('\n', a, HeaderLines(hs[1..]) + "\n" + x, b, HeaderLines(gs[1..]) + "\n" + y);
      FirstSeparator(':', hs[0].0, hs[0].1, gs[0].0, gs[0].1);
      HeaderLinesInjective(hs[1..], x, gs[1..], y);
      assert hs == [hs[0]] + hs[1..] && gs == [gs[0]] + gs[1..];
    }
  }

  lemma LinesCons(hs: Headers, x: string)
    requires hs != []
    ensures HeaderLines(hs) + "\n" + x ==
            (hs[0].0 + ":" + hs[0].1) + ['\n'] + (HeaderLines(hs[1..]) + "\n" + x)
  {
    var a, rest := hs[0].0 + ":" + hs[0].1, HeaderLines(hs[1..]);
    assert HeaderLines(hs) == a + "\n" + rest;
    hide HeaderLines;
    assert a + "\n" + rest + "\n" + x == a + ['\n'] + (rest + "\n" + x);
  }

  lemma EmptyLineFirst(hs: Headers, x: string)
    requires forall h | h in hs :: '\n' !in h.0 && '\n' !in h.1
    ensures (HeaderLines(hs) + "\n" + x)[0] == '\n' <==> hs == []
  {
    if hs != [] {
      assert hs[0] in hs;
      var a := hs[0].0 + ":" + hs[0].1;
      assert HeaderLines(hs)[0] == a[0] && a[0] in a;
    }
  }

  /** The canonical request determines the method, the URI, the canonical query, the
      canonical headers and the payload hash. */
  lemma RenderExact(c: Canonical, d: Canonical)
    requires OneLiners(c) && OneLiners(d)
    ensures Render(c) == Render(d) <==> c == d
  {
    if Render(c) == Render(d) {
      hide HeaderLines, SignedHeaders, Render;
      RenderLines(c);
      RenderLines(d);
      var c2, d2 := Tail(c), Tail(d);
      FirstSeparator('\n', c.httpMethod, c.uri + ['\n'] + (c.query + ['\n'] + c2),
                     d.httpMethod, d.uri + ['\n'] + (d.query + ['\n'] + d2));
      FirstSeparator('\n', c.uri, c.query + ['\n'] + c2, d.uri, d.query + ['\n'] + d2);
      FirstSeparator('\n', c.query, c2, d.query, d2);
      HeaderLinesInjective(c.headers, SignedHeaders(c.headers) + "\n" + c.payloadHash,
                           d.headers, SignedHeaders(d.headers) + "\n" + d.payloadHash);
      LastSeparator('\n', SignedHeaders(c.headers), c.payloadHash, SignedHeaders(d.headers), d.payloadHash);
    }
  }

  /** The request from the header block on. */
  function Tail(c: Canonical): (s: string) {
    HeaderLines(c.headers) + "\n" + (SignedHeaders(c.headers) + "\n" + c.payloadHash)
  }

  lemma RenderLines(c: Canonical)
    ensures Render(c) == c.httpMethod + ['\n'] + (c.uri + ['\n'] + (c.query + ['\n'] + Tail(c)))
  {
    var h, sh := HeaderLines(c.headers), SignedHeaders(c.headers);
    hide HeaderLines, SignedHeaders;
    var front := c.httpMethod + "\n" + c.uri + "\n" + c.query + "\n";
    assert Render(c) == front + Tail(c);
    assert front + Tail(c) == c.httpMethod + ['\n'] + (c.uri + ['\n'] + (c.query + ['\n'] + Tail(c)));
  }

  // ---------- from the request's own parts ----------

  datatype Parts = Parts(
    httpMethod: string, uri: string, query: string, host: string, headers: Headers,
    payloadHash: string, amzDate: string, token: Option<string>)

  function SignedMap(p: Parts): (m: map<string, string>) {
    HeaderMap(p.host, p.headers, p.payloadHash, p.amzDate, p.token)
  }

  ghost predicate IsCanonical(upper: string -> string, p: Parts, c: Canonical) {
    && c.httpMethod == upper(p.httpMethod) && c.uri == p.uri && c.query == CanonicalQuery(p.query)
    && Lists(SignedMap(p), c.headers) && c.payloadHash == p.payloadHash
  }

  /** The canonical request of a request; `upper` is the Unicode upper-casing of the method. */
  method CanonicalRequest(upper: string -> string, p: Parts) returns (request: string, c: Canonical)
    ensures request == Render(c) && IsCanonical(upper, p, c)
  {
    var entries := CanonicalHeaders(p.host, p.headers, p.payloadHash, p.amzDate, p.token);
    c := Canonical(upper(p.httpMethod), p.uri, CanonicalQuery(p.query), entries, p.payloadHash);
    request := Render(c);
  }

  /** No line breaks in the inputs (header values may have any) and no colon in a header name. */
  predicate Lines(upper: string -> string, p: Parts) {
    && '\n' !in upper(p.httpMethod) && '\n' !in p.uri && '\n' !in p.query && '\n' !in p.host
    && '\n' !in p.payloadHash && '\n' !in p.amzDate && (p.token.Some? ==> '\n' !in p.token.value)
    && forall h | h in p.headers :: '\n' !in h.0 && ':' !in h.0
  }

  lemma {:induction false} JoinChars(parts: seq<string>, sep: string, c: char)
    requires c !in sep && forall p | p in parts :: c !in p
    ensures c !in Join(parts, sep)
  {
    if parts != [] {
      assert parts[0] in parts;
      JoinChars(parts[1..], sep, c);
    }
  }

  lemma {:induction false} PiecesChars(pieces: seq<string>, c: char)
    requires forall s | s in pieces :: c !in s
    ensures forall p | p in ParsePieces(pieces) :: c !in p.0 && c !in p.1
  {
    if pieces != [] {
      assert pieces[0] in pieces;
      PiecesChars(pieces[1..], c);
    }
  }

  lemma {:induction false} SplitChars(s: string, sep: char, c: char)
    requires c !in s
    ensures forall p | p in SplitOn(s, sep) :: c !in p
    decreases |s|
  {
    var i := IndexOf(s, sep);
    if i < |s| { SplitChars(s[i + 1..], sep, c); }
  }

  lemma QueryChars(query: string)
    requires '\n' !in query
    ensures '\n' !in CanonicalQuery(query)
  {
    var ps := ParseQuery(query);
    SplitChars(query, '&', '\n');
    PiecesChars(SplitOn(query, '&'), '\n');
    SortSorts(ps);
    forall a | a in QueryString.Assignments(Sort(ps)) ensures '\n' !in a {
      var i :| 0 <= i < |Sort(ps)| && QueryString.Assignments(Sort(ps))[i] == a;
      assert Sort(ps)[i] in multiset(Sort(ps));
      assert Sort(ps)[i] in ps;
    }
    JoinChars(QueryString.Assignments(Sort(ps)), "&", '\n');
  }

  lemma {:induction false} ValuesChars(headers: Headers, key: string)
    ensures forall v | v in ValuesOf(headers, key) :: '\n' !in v
  {
    hide Lower, TrimAll;
    if headers != [] {
      ValuesChars(headers[..|headers| - 1], key);
      TrimAllNormal(headers[|headers| - 1].1);
    }
  }

  lemma SignedMapLines(upper: string -> string, p: Parts, k: string)
    requires Lines(upper, p) && k in SignedMap(p)
    ensures '\n' !in k && ':' !in k && '\n' !in SignedMap(p)[k]
  {
    var o := Overrides(p.host, p.payloadHash, p.amzDate, p.token);
    if k in o {
      OverrideLines(p.host, p.payloadHash, p.amzDate, p.token, k);
    } else {
      var i :| 0 <= i < |p.headers| && Lower(p.headers[i].0) == k;
      assert p.headers[i] in p.headers;
      LowerChars(p.headers[i].0);
      ValuesChars(p.headers, k);
      JoinChars(ValuesOf(p.headers, k), ",", '\n');
    }
  }

  lemma LowerChars(s: string)
    requires '\n' !in s && ':' !in s
    ensures '\n' !in Lower(s) && ':' !in Lower(s)
  {
  }

  lemma OverrideLines(host: string, payloadHash: string, amzDate: string, token: Option<string>, k: string)
    requires k in Overrides(host, payloadHash, amzDate, token)
    requires '\n' !in host && '\n' !in payloadHash && '\n' !in amzDate && (token.Some? ==> '\n' !in token.value)
    ensures '\n' !in k && ':' !in k && '\n' !in Overrides(host, payloadHash, amzDate, token)[k]
  {
    assert k in ["host", "x-amz-content-sha256", "x-amz-date", "x-amz-security-token"];
  }

  lemma CanonicalOneLiners(upper: string -> string, p: Parts, c: Canonical)
    requires Lines(upper, p) && IsCanonical(upper, p, c)
    ensures OneLiners(c)
  {
    QueryChars(p.query);
    forall h | h in c.headers ensures '\n' !in h.0 && ':' !in h.0 && '\n' !in h.1 {
      var i :| 0 <= i < |c.headers| && c.headers[i] == h;
      SignedMapLines(upper, p, h.0);
    }
  }

  /** Two requests have the same canonical request exactly when they agree in upper-cased
      method, URI, multiset of query pairs, signed header map and payload hash. */
  lemma CanonicalRequestExact(upper: string -> string, p: Parts, c: Canonical, q: Parts, d: Canonical)
    requires Lines(upper, p) && Lines(upper, q) && IsCanonical(upper, p, c) && IsCanonical(upper, q, d)
    ensures Render(c) == Render(d) <==>
            && upper(p.httpMethod) == upper(q.httpMethod) && p.uri == q.uri
            && multiset(ParseQuery(p.query)) == multiset(ParseQuery(q.query))
            && SignedMap(p) == SignedMap(q) && p.payloadHash == q.payloadHash
  {
    hide Render, CanonicalQuery, ParseQuery, SignedMap, Lines, OneLiners, Lists;
    CanonicalOneLiners(upper, p, c);
    CanonicalOneLiners(upper, q, d);
    RenderExact(c, d);
    CanonicalQueryExact(p.query, q.query);
    if SignedMap(p) == SignedMap(q) { ListingUnique(SignedMap(p), c.headers, d.headers); }
    if c.headers == d.headers { ListedMap(SignedMap(p), SignedMap(q), c.headers); }
  }

  lemma ListedMap(m: map<string, string>, n: map<string, string>, es: Headers)
    requires Lists(m, es) && Lists(n, es)
    ensures m == n
  {
    var ks := seq(|es|, i requires 0 <= i < |es| => es[i].0);
    ListsAllKeys(m, es, ks);
    ListsAllKeys(n, es, ks);
    hide Ascending;
    forall k ensures k in m <==> k in n { assert k in m <==> k in ks; }
    forall k | k in m ensures m[k] == n[k] {
      assert k in ks;
      var i :| 0 <= i < |ks| && ks[i] == k;
    }
  }
}
