/** What the `Authorization: Digest` header tells the server that reads it, in terms of the
    challenge and the credentials alone. */
module DigestHeader {
  import opened Text
  import opened Challenge
  import opened Digest

  // ---------- a name in a comma-separated list ----------

  predicate Blank(s: string) {
    forall i | 0 <= i < |s| :: IsWhitespace(s[i])
  }

  /** `s` is `part` between two ends or separators. */
  predicate Between(s: string, sep: char, x: string, part: string, y: string) {
    s == x + part + y && (x == "" || x[|x| - 1] == sep) && (y == "" || y[0] == sep)
  }

  lemma {:induction false} PieceBetween(s: string, sep: char, part: string) returns (x: string, y: string)
    requires part in SplitOn(s, sep)
    ensures Between(s, sep, x, part, y)
    decreases |s|
  {
    var i := IndexOf(s, sep);
    hide IndexOf;
    if i == |s| {
      x, y := "", "";
      assert s == "" + part + "";
    } else if part == s[..i] {
      x, y := "", s[i..];
      assert s == "" + part + y;
    } else {
      var front, rest := s[..i + 1], s[i + 1..];
      assert part in SplitOn(rest, sep);
      hide SplitOn;
      var inner;
      inner, y := PieceBetween(rest, sep, part);
      x := front + inner;
      Widen(s, front, rest, sep, inner, part, y);
    }
  }

  lemma Widen(s: string, front: string, rest: string, sep: char, x: string, part: string, y: string)
    requires s == front + rest && front != "" && front[|front| - 1] == sep && Between(rest, sep, x, part, y)
    ensures Between(s, sep, front + x, part, y)
  {
    assert s == (front + x) + part + y;
  }

  lemma {:induction false} BetweenIsPiece(s: string, sep: char, x: string, part: string, y: string)
    requires Between(s, sep, x, part, y) && sep !in part
    ensures part in SplitOn(s, sep)
    decreases |s|
  {
    hide SplitOn;
    if x == "" {
      FirstPiece(s, sep, part, y);
    } else {
      var i := IndexOf(x, sep);
      assert x[|x| - 1] in x;
      assert i < |x|;
      var head, tail := x[..i], x[i + 1..];
      hide IndexOf;
      assert s == head + [sep] + (tail + part + y);
      assert sep !in head;
      SplitFirst(head, sep, tail + part + y);
      assert tail != "" ==> tail[|tail| - 1] == x[|x| - 1];
      BetweenIsPiece(tail + part + y, sep, tail, part, y);
    }
  }

  lemma FirstPiece(s: string, sep: char, part: string, y: string)
    requires s == part + y && (y == "" || y[0] == sep) && sep !in part
    ensures part in SplitOn(s, sep)
  {
    hide SplitOn;
    if y == "" {
      SplitNone(part, sep);
      assert s == part;
    } else {
      SplitFirst(part, sep, y[1..]);
      assert s == part + [sep] + y[1..];
    }
  }

  lemma TrimParts(s: string) returns (w: string, v: string)
    ensures Blank(w) && Blank(v) && s == w + Trim(s) + v
  {
    var t := TrimStart(s);
    TrimStartSuffix(s);
    TrimEndPrefix(t);
    w, v := s[..|s| - |t|], t[|TrimEnd(t)|..];
    BlankFront(s);
    BlankBack(t);
    assert t == TrimEnd(t) + v && s == w + t;
  }

  lemma {:induction false} BlankFront(s: string)
    ensures Blank(s[..|s| - |TrimStart(s)|])
  {
    if s != "" && IsWhitespace(s[0]) {
      BlankFront(s[1..]);
      var n := |s| - |TrimStart(s)|;
      assert s[..n] == [s[0]] + s[1..][..n - 1];
    }
  }

  lemma {:induction false} BlankBack(s: string)
    ensures |TrimEnd(s)| <= |s| && Blank(s[|TrimEnd(s)|..])
  {
    if s != "" && IsWhitespace(s[|s| - 1]) {
      var front := s[..|s| - 1];
      BlankBack(front);
      assert s[|TrimEnd(s)|..] == front[|TrimEnd(s)|..] + [s[|s| - 1]];
    }
  }

  lemma {:induction false} TrimBlanks(w: string, core: string, v: string)
    requires Blank(w) && Blank(v) && core != "" && Trimmed(core)
    ensures Trim(w + core + v) == core
    decreases |w| + |v|
  {
    hide IsWhitespace;
    if w != "" {
      var s := w + core + v;
      assert s[0] == w[0] && s[1..] == w[1..] + core + v;
      assert TrimStart(s) == TrimStart(s[1..]);
      TrimBlanks(w[1..], core, v);
    } else if v != "" {
      var s := w + core + v;
      var front := w + core + v[..|v| - 1];
      assert s == front + [v[|v| - 1]];
      TrimDropsLast(front, v[|v| - 1]);
      TrimBlanks(w, core, v[..|v| - 1]);
    } else {
      assert w + core + v == core;
      TrimTrimmed(core);
    }
  }

  /** The list names `token`: it stands between commas or ends, with blanks around it. */
  ghost predicate Lists(list: string, token: string) {
    exists x, w, v, y :: ListsAt(list, token, x, w, v, y)
  }

  ghost predicate ListsAt(list: string, token: string, x: string, w: string, v: string, y: string) {
    && list == x + w + token + v + y && Blank(w) && Blank(v)
    && (x == "" || x[|x| - 1] == ',') && (y == "" || y[0] == ',')
  }

  /** The challenge offers `auth` exactly when its `qop` list names it. */
  lemma OffersAuthExact(qop: Option<string>)
    ensures OffersAuth(qop) <==> qop.Some? && Lists(qop.value, "auth")
  {
    hide Trim, SplitOn, IsWhitespace;
    if OffersAuth(qop) {
      var part :| part in SplitOn(qop.value, ',') && Trim(part) == "auth";
      var x, y := PieceBetween(qop.value, ',', part);
      var w, v := TrimParts(part);
      assert x + part + y == x + w + "auth" + v + y;
      assert ListsAt(qop.value, "auth", x, w, v, y);
    }
    if qop.Some? && Lists(qop.value, "auth") {
      var x, w, v, y :| ListsAt(qop.value, "auth", x, w, v, y);
      var part := w + "auth" + v;
      assert x + w + "auth" + v + y == x + part + y;
      NoComma(w);
      NoComma(v);
      BetweenIsPiece(qop.value, ',', x, part, y);
      AuthTrimmed();
      TrimBlanks(w, "auth", v);
    }
  }

  lemma NoComma(w: string)
    requires Blank(w)
    ensures ',' !in w
  {
  }

  lemma AuthTrimmed()
    ensures Trimmed("auth") && ',' !in "auth"
  {
  }

  // ---------- what the server reads ----------

  /** The last characters, whatever the case, are `-sess`. */
  predicate NamesSession(name: string) {
    |name| >= 5 && Lower(name[|name| - 5..]) == "-sess"
  }

  lemma SessionExact(name: string)
    ensures IsSession(name) <==> NamesSession(name)
    ensures IsSession(Upper(name)) <==> NamesSession(name)
  {
    if |name| >= 5 {
      var u, l := Upper(name)[|name| - 5..], Lower(name[|name| - 5..]);
      forall i | 0 <= i < 5 ensures u[i] == UpperChar(name[|name| - 5 + i]) && l[i] == LowerChar(name[|name| - 5 + i]) {
      }
      assert Upper(Upper(name))[|name| - 5..] == u by { UpperTwice(name); }
      SessLetters(u, l, name[|name| - 5..]);
    }
  }

  lemma SessLetters(u: string, l: string, s: string)
    requires |s| == |u| == |l| == 5 && forall i | 0 <= i < 5 :: u[i] == UpperChar(s[i]) && l[i] == LowerChar(s[i])
    ensures u == "-SESS" <==> l == "-sess"
  {
    var a, b := "-SESS", "-sess";
    assert a[0] == b[0] == '-';
    assert forall i | 1 <= i < 5 :: 'A' <= a[i] <= 'Z' && b[i] == LowerChar(a[i]) && a[i] == UpperChar(b[i]);
    assert u == a ==> forall i | 0 <= i < 5 :: l[i] == b[i];
    assert l == b ==> forall i | 0 <= i < 5 :: u[i] == a[i];
  }

  /** Of a request and the parameters of its header. */
  ghost predicate Tells(r: Request, params: Params) {
    && {"username", "realm", "nonce", "uri", "response"} <= params.Keys
    && params["username"] == r.username && params["realm"] == r.realm
    && params["nonce"] == r.nonce && params["uri"] == r.uri
    && ("qop" in params <==> r.qop.Some? && Lists(r.qop.value, "auth"))
    && ("nc" in params <==> "qop" in params)
    && ("cnonce" in params <==> "qop" in params || (r.algorithm.Some? && NamesSession(r.algorithm.value)))
    && ("qop" in params ==> params["qop"] == "auth")
    && ("nc" in params ==> HexValue(params["nc"]) == r.nc && |params["nc"]| >= 8)
    && ("cnonce" in params ==> params["cnonce"] == r.cnonce)
    && ("algorithm" in params <==> r.algorithm.Some?)
    && ("algorithm" in params ==> params["algorithm"] == Upper(r.algorithm.value))
    && ("opaque" in params <==> r.opaqueData.Some?)
    && ("opaque" in params ==> params["opaque"] == r.opaqueData.value)
  }

  /** What a server parses from the header: the credentials' user, the challenge's realm, nonce,
      opaque value and algorithm, the method's URI, and `qop`, `nc` and `cnonce` exactly when
      the challenge lists `auth`, except that a session algorithm has a `cnonce` always. */
  lemma HeaderTells(hash: Hash, r: Request)
    requires Echoable(r)
    ensures exists params :: FindDigest(Parse(Authorization(hash, r))) == Some(params) && Tells(r, params)
  {
    hide Parse, FindDigest, Authorization, HeaderParams, Lists, NamesSession, OffersAuth, IsSession, NonceCount,
      HexValue;
    var params := HeaderParams(hash, r);
    RoundTrip(hash, r);
    ParamsCarried(hash, r);
    OffersAuthExact(r.qop);
    NonceCountExact(r.nc);
    if r.algorithm.Some? { SessionExact(r.algorithm.value); } else { PlainMD5(); }
    assert Tells(r, params);
  }

  lemma PlainMD5()
    ensures !IsSession("MD5")
  {
  }

  // ---------- the text on the wire ----------

  const ORDER: seq<string> :=
    ["username", "realm", "nonce", "uri", "qop", "nc", "cnonce", "response", "algorithm", "opaque"]

  /** `qop`, `nc` and `algorithm` are tokens without quotes; every other value is a quoted string. */
  predicate WrittenAs(r: Request, key: string, value: string) {
    if key == "qop" then value == "auth"
    else if key == "nc" then |value| >= 8 && forall c | c in value :: '0' <= c <= '9' || 'a' <= c <= 'f'
    else if key == "algorithm" then r.algorithm.Some? && value == Upper(r.algorithm.value)
    else |value| >= 2 && value[0] == '"' && value[|value| - 1] == '"'
  }

  predicate OnWire(r: Request, part: string, lead: string, key: string) {
    lead + key + "=" <= part && WrittenAs(r, key, part[|lead + key| + 1..])
  }

  /** Where each field of the header is in the order. */
  function LeadRanks(r: Request): (ranks: seq<nat>) {
    [0, 1, 2, 3] + (if OffersAuth(r.qop) then [4, 5, 6] else if IsSession(AlgorithmName(r)) then [6] else []) + [7]
  }

  function TailRanks(r: Request): (ranks: seq<nat>) {
    (if r.algorithm.Some? then [8] else []) + (if r.opaqueData.Some? then [9] else [])
  }

  predicate Ranked(fs: Fields, ranks: seq<nat>) {
    |fs| == |ranks| && forall i | 0 <= i < |fs| :: ranks[i] < 10 && fs[i].0 == ORDER[ranks[i]]
  }

  lemma RankedConcat(fs: Fields, gs: Fields, a: seq<nat>, b: seq<nat>)
    requires Ranked(fs, a) && Ranked(gs, b)
    ensures Ranked(fs + gs, a + b)
  {
  }

  lemma LeadRanked(hash: Hash, r: Request)
    ensures Ranked(LeadFields(hash, r), LeadRanks(r))
  {
    hide Response, NonceCount, OffersAuth, IsSession, AlgorithmName;
  }

  lemma RanksAscend(r: Request)
    ensures var ranks := LeadRanks(r) + TailRanks(r); forall i, j | 0 <= i < j < |ranks| :: ranks[i] < ranks[j]
  {
    hide OffersAuth, IsSession, AlgorithmName;
  }

  lemma FieldRanks(hash: Hash, r: Request)
    ensures Ranked(HeaderFields(hash, r), LeadRanks(r) + TailRanks(r))
  {
    hide LeadFields, LeadRanks, AlgorithmName;
    LeadRanked(hash, r);
    var tail := (if r.algorithm.Some? then [("algorithm", AlgorithmName(r))] else [])
                + (if r.opaqueData.Some? then [("opaque", r.opaqueData.value)] else []);
    assert Ranked(tail, TailRanks(r));
    assert HeaderFields(hash, r) == LeadFields(hash, r) + tail;
    hide Ranked;
    RankedConcat(LeadFields(hash, r), tail, LeadRanks(r), TailRanks(r));
  }

  lemma FieldWritten(hash: Hash, r: Request, i: nat, lead: string)
    requires i < |HeaderFields(hash, r)|
    ensures var (k, v) := HeaderFields(hash, r)[i]; OnWire(r, lead + Field(k, v), lead, k)
  {
    hide HeaderFields, WrittenAs, Field, FieldValue;
    var (k, v) := HeaderFields(hash, r)[i];
    ValuesOfTokens(hash, r, i);
    ValueWritten(r, k, v);
    FieldParts(lead, k, v);
  }

  lemma FieldParts(lead: string, k: string, v: string)
    ensures var part := lead + Field(k, v); lead + k + "=" <= part && part[|lead + k| + 1..] == FieldValue(k, v)
  {
    hide Escape, IsBare;
    var front, shown := lead + k + "=", FieldValue(k, v);
    assert lead + Field(k, v) == front + shown;
    hide Field, FieldValue;
    assert (front + shown)[|front|..] == shown;
  }

  lemma ValueWritten(r: Request, k: string, v: string)
    requires (k == "qop" ==> v == "auth") && (k == "nc" ==> v == NonceCount(r.nc))
    requires k == "algorithm" ==> r.algorithm.Some? && v == AlgorithmName(r)
    ensures WrittenAs(r, k, FieldValue(k, v))
  {
    hide Escape, NonceCount, Upper;
    NonceCountExact(r.nc);
  }

  lemma ValuesOfTokens(hash: Hash, r: Request, i: nat)
    requires i < |HeaderFields(hash, r)|
    ensures var (k, v) := HeaderFields(hash, r)[i];
            && (k == "qop" ==> v == "auth") && (k == "nc" ==> v == NonceCount(r.nc))
            && (k == "algorithm" ==> r.algorithm.Some? && v == AlgorithmName(r))
  {
    hide Response, NonceCount, OffersAuth, IsSession, AlgorithmName;
    KeysTold();
  }

  lemma KeysTold()
    ensures forall k | k in ["username", "realm", "nonce", "uri", "cnonce", "response", "opaque"] ::
              k != "qop" && k != "nc" && k != "algorithm"
    ensures "qop" != "nc" && "qop" != "algorithm" && "nc" != "algorithm"
  {
    DistinctKeys();
  }

  /** The fields on the wire: in the fixed order, the tokens bare and everything else quoted. */
  lemma WireForm(hash: Hash, r: Request) returns (ranks: seq<nat>)
    requires AlgorithmContained(r)
    ensures var parts := Split(Authorization(hash, r));
            && |ranks| == |parts| && (forall i, j | 0 <= i < j < |ranks| :: ranks[i] < ranks[j])
            && forall i | 0 <= i < |parts| ::
                 ranks[i] < 10 && OnWire(r, parts[i], if i == 0 then "Digest " else " ", ORDER[ranks[i]])
  {
    hide HeaderFields, Field, OnWire, Contained, Keyed, Split, Join, Written, LeadRanks, TailRanks, IsBare;
    var fs := HeaderFields(hash, r);
    ranks := LeadRanks(r) + TailRanks(r);
    FieldRanks(hash, r);
    RanksAscend(r);
    HeaderNonempty(hash, r);
    FieldsContained(hash, r);
    SplitWritten(fs);
    var parts := Split(Authorization(hash, r));
    forall i | 0 <= i < |parts| ensures OnWire(r, parts[i], if i == 0 then "Digest " else " ", ORDER[ranks[i]]) {
      FieldWritten(hash, r, i, if i == 0 then "Digest " else " ");
      if i > 0 { assert fs[1..][i - 1] == fs[i]; }
    }
  }

  /** Names other than the SHA ones mean MD5. */
  lemma OtherNames(name: string)
    ensures BaseAlgorithm(name) == MD5 || (|name| >= 4 && Lower(name[..4]) == "sha-")
  {
    if BaseAlgorithm(name) != MD5 {
      var u := Upper(name);
      var p := if StartsWith(u, "SHA-512-256") then "SHA-512-256" else "SHA-256";
      assert p <= u && p[..4] == "SHA-";
      forall i | 0 <= i < 4 ensures Lower(name[..4])[i] == "sha-"[i] {
        assert u[i] == p[i] == "SHA-"[i] && u[i] == UpperChar(name[i]);
      }
    }
  }
}
