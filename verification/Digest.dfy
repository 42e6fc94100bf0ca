/** The `Authorization: Digest` header (RFC 7616): writing it, reading it back with the
    challenge parser, and recomputing its response as a server does. */
module Digest {
  import opened Text
  import opened Challenge

  datatype Algorithm = MD5 | SHA256 | SHA512_256

  /** Hex digest of a string; nothing is assumed about it. */
  type Hash = (Algorithm, string) -> string

  datatype Request = Request(
    username: string, password: string, httpMethod: string, uri: string, realm: string, nonce: string,
    nc: nat, cnonce: string, qop: Option<string>, algorithm: Option<string>, opaqueData: Option<string>)

  // ---------- the writer ----------

  function HexDigit(n: nat): (c: char)
    requires n < 16
  {
    "0123456789abcdef"[n]
  }

  function Hex(n: nat): (s: string)
    ensures s != []
  {
    (if n < 16 then "" else Hex(n / 16)) + [HexDigit(n % 16)]
  }

  function PadLeft(s: string, w: nat): (t: string)
    decreases w - |s|
  {
    if |s| >= w then s else PadLeft("0" + s, w)
  }

  /** `{:08x}` */
  function NonceCount(nc: nat): (s: string) {
    PadLeft(Hex(nc), 8)
  }

  function BaseAlgorithm(name: string): (a: Algorithm) {
    var upper := Upper(name);
    if StartsWith(upper, "SHA-512-256") then SHA512_256
    else if StartsWith(upper, "SHA-256") then SHA256
    else MD5
  }

  predicate IsSession(name: string) {
    EndsWith(Upper(name), "-SESS")
  }

  function ResponseValue(hash: Hash, r: Request, algorithm: string): (response: string) {
    var base := BaseAlgorithm(algorithm);
    var plain := hash(base, r.username + ":" + r.realm + ":" + r.password);
    var ha1 := if IsSession(algorithm) then hash(base, plain + ":" + r.nonce + ":" + r.cnonce) else plain;
    var ha2 := hash(base, r.httpMethod + ":" + r.uri);
    match r.qop
    case Some(qop) =>
      hash(base, ha1 + ":" + r.nonce + ":" + NonceCount(r.nc) + ":" + r.cnonce + ":" + qop + ":" + ha2)
    case None => hash(base, ha1 + ":" + r.nonce + ":" + ha2)
  }

  /** The comma-separated `qop` list names `auth`. */
  predicate OffersAuth(qop: Option<string>) {
    qop.Some? && exists part :: part in SplitOn(qop.value, ',') && Trim(part) == "auth"
  }

  function ReplaceChar(s: string, c: char, instead: string): (t: string) {
    if s == [] then "" else (if s[0] == c then instead else [s[0]]) + ReplaceChar(s[1..], c, instead)
  }

  function Escape(value: string): (s: string) {
    ReplaceChar(ReplaceChar(value, '\\', "\\\\"), '"', "\\\"")
  }

  predicate IsBare(key: string) {
    key == "qop" || key == "nc" || key == "algorithm"
  }

  function Field(key: string, value: string): (s: string) {
    if IsBare(key) then key + "=" + value
    else key + "=\"" + Escape(value) + "\""
  }

  function AlgorithmName(r: Request): (name: string) {
    if r.algorithm.Some? then Upper(r.algorithm.value) else "MD5"
  }

  function Response(hash: Hash, r: Request): (response: string) {
    ResponseValue(hash, r.(qop := if OffersAuth(r.qop) then Some("auth") else None), AlgorithmName(r))
  }

  type Fields = seq<(string, string)>

  function HeaderFields(hash: Hash, r: Request): (fields: Fields) {
    HeaderFieldsAs(hash, r, AlgorithmName(r))
  }

  function LeadFields(hash: Hash, r: Request): (fields: Fields) {
    [("username", r.username), ("realm", r.realm), ("nonce", r.nonce), ("uri", r.uri)]
    + (if OffersAuth(r.qop) then [("qop", "auth"), ("nc", NonceCount(r.nc)), ("cnonce", r.cnonce)]
       else if IsSession(AlgorithmName(r)) then [("cnonce", r.cnonce)]
       else [])
    + [("response", Response(hash, r))]
  }

  /** The fields with `name` in the place of the algorithm. */
  function HeaderFieldsAs(hash: Hash, r: Request, name: string): (fields: Fields) {
    LeadFields(hash, r)
    + (if r.algorithm.Some? then [("algorithm", name)] else [])
    + (if r.opaqueData.Some? then [("opaque", r.opaqueData.value)] else [])
  }

  function Written(fields: Fields): (parts: seq<string>)
    ensures |parts| == |fields|
  {
    seq(|fields|, i requires 0 <= i < |fields| => Field(fields[i].0, fields[i].1))
  }

  function Authorization(hash: Hash, r: Request): (header: string) {
    "Digest " + Join(Written(HeaderFields(hash, r)), ", ")
  }

  // ---------- writing and scanning a field ----------

  function EscapeChar(c: char): (s: string) {
    if c == '\\' then "\\\\" else if c == '"' then "\\\"" else [c]
  }

  lemma EscapeCons(value: string)
    requires value != []
    ensures Escape(value) == EscapeChar(value[0]) + Escape(value[1..])
  {
    var first := if value[0] == '\\' then "\\\\" else [value[0]];
    ReplaceConcat(first, ReplaceChar(value[1..], '\\', "\\\\"), '"', "\\\"");
    if value[0] == '\\' {
      assert first[1..] == "\\" && first[1..][1..] == "";
      assert ReplaceChar(first, '"', "\\\"") == "\\\\";
    } else {
      assert first[1..] == "";
    }
  }

  lemma {:induction false} ReplaceConcat(s: string, t: string, c: char, instead: string)
    ensures ReplaceChar(s + t, c, instead) == ReplaceChar(s, c, instead) + ReplaceChar(t, c, instead)
  {
    if s == [] {
      assert s + t == t;
    } else {
      ReplaceConcat(s[1..], t, c, instead);
      assert (s + t)[1..] == s[1..] + t && (s + t)[0] == s[0];
      var h := if s[0] == c then instead else [s[0]];
      var x, y := ReplaceChar(s[1..], c, instead), ReplaceChar(t, c, instead);
      assert h + (x + y) == (h + x) + y;
    }
  }

  /** An escaped value never ends its quoted string and never exposes a comma. */
  lemma {:induction false} EscapeScan(value: string)
    ensures After(QUOTED, Escape(value)) == QUOTED && NoBreak(QUOTED, Escape(value))
  {
    if value != [] {
      EscapeScan(value[1..]);
      EscapeCons(value);
      var e := EscapeChar(value[0]);
      AfterConcat(QUOTED, e, Escape(value[1..]));
      if |e| == 2 { assert e[1..] == [e[1]] && e[1..][1..] == ""; } else { assert e[1..] == ""; }
    }
  }

  lemma UnescapeChar(c: char, tail: string)
    ensures Unescape(EscapeChar(c) + tail) == [c] + Unescape(tail)
  {
    var e := EscapeChar(c);
    var s := e + tail;
    assert s[|e|..] == tail;
    assert s[0] == e[0];
    if |e| == 2 { assert s[1] == c; }
  }

  /** Reading an escaped value up to its closing quote gives the value back. */
  lemma {:induction false} UnescapeEscape(value: string, end: string)
    requires end != [] && end[0] == '"'
    ensures Unescape(Escape(value) + end) == value
  {
    if value == [] {
      assert Escape(value) + end == end;
    } else {
      UnescapeStep(value, end);
      UnescapeEscape(value[1..], end);
      assert value == [value[0]] + value[1..];
    }
  }

  lemma UnescapeStep(value: string, end: string)
    requires value != []
    ensures Unescape(Escape(value) + end) == [value[0]] + Unescape(Escape(value[1..]) + end)
  {
    hide *;
    EscapeCons(value);
    var tail := Escape(value[1..]) + end;
    assert Escape(value) + end == EscapeChar(value[0]) + tail;
    UnescapeChar(value[0], tail);
  }

  predicate IsKey(key: string) {
    key != [] && forall i | 0 <= i < |key| :: 'a' <= key[i] <= 'z'
  }

  /** A value without commas, quotes and outer blanks. */
  predicate BareSafe(value: string) {
    ',' !in value && '"' !in value && Trimmed(value)
  }

  lemma {:induction false} PlainScan(s: string)
    requires ',' !in s && '"' !in s
    ensures After(START, s) == START && NoBreak(START, s)
  {
    if s != [] {
      assert s[0] in s;
      PlainScan(s[1..]);
    }
  }

  lemma QuotedScan(value: string)
    ensures var q := "\"" + Escape(value) + "\""; After(START, q) == START && NoBreak(START, q)
  {
    EscapeScan(value);
    assert After(START, "\"") == QUOTED && NoBreak(START, "\"") by { assert "\""[1..] == ""; }
    assert After(QUOTED, "\"") == START && NoBreak(QUOTED, "\"") by { assert "\""[1..] == ""; }
    hide After, NoBreak, Escape;
    AfterConcat(START, "\"", Escape(value));
    AfterConcat(START, "\"" + Escape(value), "\"");
  }

  /** Scanned on its own, a quoted field is balanced and exposes no comma whatever its value is;
      a bare field is and does what its value is and does. */
  lemma FieldScan(key: string, value: string)
    requires IsKey(key)
    ensures After(START, Field(key, value)) == if IsBare(key) then After(START, value) else START
    ensures NoBreak(START, Field(key, value)) <==> (IsBare(key) ==> NoBreak(START, value))
  {
    hide After, NoBreak, Escape;
    var v := if IsBare(key) then value else "\"" + Escape(value) + "\"";
    PlainScan(key + "=");
    if !IsBare(key) { QuotedScan(value); }
    AfterConcat(START, key + "=", v);
    assert Field(key, value) == key + "=" + v;
  }

  // ---------- parsing a field ----------

  /** What follows the `=` of a field. */
  function FieldValue(key: string, value: string): (v: string) {
    if IsBare(key) then value else "\"" + Escape(value) + "\""
  }

  /** What the challenge parser makes of a field's value. */
  function Read(key: string, value: string): (v: string) {
    if IsBare(key) then Unquote(Trim(value)) else value
  }

  lemma FieldShape(key: string, value: string)
    requires IsKey(key)
    ensures Field(key, value) == key + "=" + FieldValue(key, value)
    ensures !IsBare(key) ==> Trimmed(FieldValue(key, value))
  {
    hide Escape;
    assert key + "=\"" + Escape(value) + "\"" == key + "=" + ("\"" + Escape(value) + "\"");
  }

  lemma LowerKey(key: string)
    requires IsKey(key)
    ensures Lower(key) == key && Trimmed(key) && IndexOfSpace(key) == |key|
  {
    hide IsWhitespace;
    forall i | 0 <= i < |key| ensures !IsWhitespace(key[i]) && LowerChar(key[i]) == key[i] {
      LowerLetter(key[i]);
    }
  }

  lemma LowerLetter(c: char)
    requires 'a' <= c <= 'z'
    ensures !IsWhitespace(c) && LowerChar(c) == c && c != '='
  {
  }

  lemma UnquoteField(key: string, value: string)
    requires IsKey(key)
    ensures Unquote(Trim(FieldValue(key, value))) == Read(key, value)
  {
    if !IsBare(key) {
      FieldShape(key, value);
      TrimTrimmed(FieldValue(key, value));
      hide Escape, Trim;
      UnescapeEscape(value, "\"");
      var v := "\"" + Escape(value) + "\"";
      assert v[1..] == Escape(value) + "\"";
    }
  }

  /** Trimming a field trims only the end of its value. */
  lemma TrimField(key: string, v: string)
    requires IsKey(key)
    ensures var f := key + "=" + v;
            Trim(f) == Trim([' '] + f) == key + "=" + TrimEnd(v)
  {
    hide TrimEnd, IsWhitespace;
    var f := key + "=" + v;
    LowerLetter(key[0]);
    assert f[0] == key[0];
    assert TrimStart(f) == f;
    TrimSpace(f);
    TrimEndAppend(key + "=", v);
  }

  lemma {:induction false} TrimEndAppend(s: string, v: string)
    requires s != [] && s[|s| - 1] == '='
    ensures TrimEnd(s + v) == s + TrimEnd(v)
    decreases |v|
  {
    if v == [] {
      assert s + v == s;
    } else if IsWhitespace(v[|v| - 1]) {
      assert (s + v)[..|s + v| - 1] == s + v[..|v| - 1];
      TrimEndAppend(s, v[..|v| - 1]);
    }
  }

  lemma TrimTrimEnd(v: string)
    ensures Trim(TrimEnd(v)) == Trim(v)
  {
    TrimBothEnds(v);
  }

  lemma ParseField(key: string, value: string)
    requires IsKey(key)
    ensures ParsePart(Field(key, value)) == ParsePart([' '] + Field(key, value)) == Some((key, Read(key, value)))
    ensures !StartsScheme(Trim([' '] + Field(key, value))) && Trim([' '] + Field(key, value)) != ""
  {
    hide *;
    var v := FieldValue(key, value);
    var f := key + "=" + v;
    FieldShape(key, value);
    TrimField(key, v);
    TrimTrimEnd(v);
    UnquoteField(key, value);
    ParseKeyed(key, TrimEnd(v), f);
    ParseKeyed(key, TrimEnd(v), [' '] + f);
  }

  lemma ParseKeyed(key: string, v: string, part: string)
    requires IsKey(key) && Trim(part) == key + "=" + v
    ensures ParsePart(part) == Some((key, Unquote(Trim(v))))
    ensures !StartsScheme(Trim(part)) && Trim(part) != ""
  {
    hide Trim, Unquote, Lower, Trimmed, IndexOf, IndexOfSpace, IsKey;
    LowerKey(key);
    TrimTrimmed(key);
    KeyFirst(key, v);
    var p := key + "=" + v;
    assert p[..|key|] == key && p[|key| + 1..] == v;
  }

  lemma KeyFirst(key: string, v: string)
    requires IsKey(key)
    ensures var p := key + "=" + v; IndexOf(p, '=') == |key| && IndexOfSpace(p) >= |key|
  {
    hide IsWhitespace;
    var p := key + "=" + v;
    assert p[|key|] == '=';
    forall j | 0 <= j < |key| ensures p[j] == key[j] && p[j] != '=' && !IsWhitespace(p[j]) {
      LowerLetter(key[j]);
    }
  }

  // ---------- the whole header ----------

  function InsertAll(params: Params, fields: Fields): (r: Params)
    decreases |fields|
  {
    if fields == [] then params else InsertAll(params[fields[0].0 := fields[0].1], fields[1..])
  }

  predicate Keyed(fields: Fields) {
    forall i | 0 <= i < |fields| :: IsKey(fields[i].0)
  }

  /** Field `i` exposes no comma, and unless it is the last one closes every quote it opens. */
  predicate ContainedAt(fields: Fields, i: nat)
    requires i < |fields|
  {
    var f := Field(fields[i].0, fields[i].1);
    NoBreak(START, f) && (i < |fields| - 1 ==> Balanced(f))
  }

  predicate Contained(fields: Fields) {
    forall i | 0 <= i < |fields| :: ContainedAt(fields, i)
  }

  lemma ContainedTail(fields: Fields)
    requires fields != [] && Contained(fields)
    ensures Contained(fields[1..]) && NoBreak(START, Field(fields[0].0, fields[0].1))
    ensures fields[1..] != [] ==> Balanced(Field(fields[0].0, fields[0].1))
  {
    hide Field, NoBreak, Balanced;
    assert ContainedAt(fields, 0);
    var tail := fields[1..];
    forall i | 0 <= i < |tail| ensures ContainedAt(tail, i) {
      assert ContainedAt(fields, i + 1);
    }
  }

  /** What follows a field in the header: `, ` and the remaining fields, if any. */
  function Rest(fields: Fields): (s: string) {
    if fields == [] then "" else ", " + Join(Written(fields), ", ")
  }

  lemma JoinWritten(fields: Fields)
    requires fields != []
    ensures Join(Written(fields), ", ") == Field(fields[0].0, fields[0].1) + Rest(fields[1..])
  {
    hide Field;
    assert Written(fields)[1..] == Written(fields[1..]);
    if |fields| == 1 {
      assert fields[1..] == [];
    }
  }

  /** The parts of the header after the field under way. */
  function Tail(fields: Fields): (parts: seq<string>)
    ensures |parts| == |fields|
  {
    seq(|fields|, i requires 0 <= i < |fields| => " " + Field(fields[i].0, fields[i].1))
  }

  lemma TailCons(fields: Fields)
    requires fields != []
    ensures Tail(fields) == [" " + Field(fields[0].0, fields[0].1)] + Tail(fields[1..])
    ensures Tail(fields)[1..] == Tail(fields[1..])
  {
    hide Field;
  }

  lemma {:induction false} SplitRest(st: Scan, part: string, fields: Fields)
    requires Contained(fields) && (fields != [] ==> st == START)
    ensures SplitFrom(st, part, Rest(fields)) == [part] + Tail(fields)
    decreases |fields|
  {
    hide Contained, Field, Written, Join;
    if fields == [] {
      assert Tail(fields) == [];
    } else {
      hide SplitFrom;
      var f := Field(fields[0].0, fields[0].1);
      ContainedTail(fields);
      JoinWritten(fields);
      SplitAtComma(part, f, Rest(fields[1..]));
      SplitRest(After(START, f), " " + f, fields[1..]);
      TailCons(fields);
    }
  }

  lemma SplitAtComma(part: string, f: string, rest: string)
    requires NoBreak(START, f)
    ensures SplitFrom(START, part, ", " + (f + rest)) == [part] + SplitFrom(After(START, f), " " + f, rest)
  {
    var text := ", " + (f + rest);
    var spaced := " " + f;
    PlainScan(" ");
    AfterConcat(START, " ", f);
    hide After, NoBreak;
    assert text[0] == ',' && text[1..] == spaced + rest;
    SplitCarry(START, "", spaced, rest);
    assert "" + spaced == spaced;
  }

  /** The fields as the parser reads them. */
  function ReadAll(fields: Fields): (r: Fields)
    ensures |r| == |fields|
  {
    seq(|fields|, i requires 0 <= i < |fields| => (fields[i].0, Read(fields[i].0, fields[i].1)))
  }

  lemma ReadAllCons(fields: Fields)
    requires fields != []
    ensures ReadAll(fields)[1..] == ReadAll(fields[1..])
    ensures ReadAll(fields)[0] == (fields[0].0, Read(fields[0].0, fields[0].1))
  {
    hide Read;
  }

  /** A field in the tail adds its pair to the challenge under way. */
  lemma TailStep(c: Challenge, k: string, v: string)
    requires IsKey(k)
    ensures Next(Some(c), " " + Field(k, v)) == Some(c.(params := c.params[k := Read(k, v)]))
    ensures Emitted(Some(c), " " + Field(k, v)) == []
  {
    hide *;
    assert " " + Field(k, v) == [' '] + Field(k, v);
    ParseField(k, v);
    ParamStep(c, " " + Field(k, v), k, Read(k, v));
  }

  lemma ParamStep(c: Challenge, part: string, k: string, v: string)
    requires Trim(part) != "" && !StartsScheme(Trim(part)) && ParsePart(part) == Some((k, v))
    ensures Next(Some(c), part) == Some(c.(params := c.params[k := v]))
    ensures Emitted(Some(c), part) == []
  {
    hide StartsScheme, Trim, NewChallenge;
    ParseTrims(part);
    hide ParsePart;
  }

  lemma ParseTrims(part: string)
    ensures ParsePart(Trim(part)) == ParsePart(part)
  {
    hide Trim, Trimmed, IndexOf, Unquote, Lower;
    TrimTrimmed(part);
    TrimTrimmed(Trim(part));
  }

  lemma {:induction false} GroupTail(c: Challenge, fields: Fields, parts: seq<string>)
    requires Keyed(fields)
    ensures Group(Some(c), Tail(fields) + parts) ==
            Group(Some(c.(params := InsertAll(c.params, ReadAll(fields)))), parts)
    decreases |fields|
  {
    hide Field, Next, Emitted, Read, IsKey, Tail, ReadAll;
    if fields == [] {
      assert Tail(fields) + parts == parts;
    } else {
      var (k, v) := fields[0];
      TailStep(c, k, v);
      GroupTail(c.(params := c.params[k := Read(k, v)]), fields[1..], parts);
      TailCons(fields);
      ReadAllCons(fields);
      GroupSkip(c, " " + Field(k, v), Tail(fields[1..]) + parts);
      assert Tail(fields) + parts == [" " + Field(k, v)] + (Tail(fields[1..]) + parts);
    }
  }

  lemma GroupSkip(c: Challenge, part: string, parts: seq<string>)
    requires Emitted(Some(c), part) == []
    ensures Group(Some(c), [part] + parts) == Group(Next(Some(c), part), parts)
  {
    hide Next, Emitted;
    assert ([part] + parts)[1..] == parts;
    var g := Group(Next(Some(c), part), parts);
    assert [] + g == g;
  }

  /** The first part of the header: the scheme and the first field. */
  lemma FirstPart(key: string, value: string)
    requires IsKey(key) && !IsBare(key)
    ensures var p := "Digest " + Field(key, value);
            Trim(p) == p && StartsScheme(p) && NewChallenge(p) == Challenge("Digest", map[key := value])
  {
    hide *;
    var f := Field(key, value);
    assert f != [] && Trimmed(f) by { FieldTrimmed(key, value); }
    ParseField(key, value);
    SchemeAndField(f);
    assert Read(key, value) == value by { QuotedReads(key, value); }
    SchemeParams("Digest " + f, key, value);
  }

  lemma FieldTrimmed(key: string, value: string)
    requires IsKey(key) && !IsBare(key)
    ensures Field(key, value) != [] && Trimmed(Field(key, value))
  {
    hide IsWhitespace, Escape;
    LowerLetter(key[0]);
    var f := Field(key, value);
    assert f[0] == key[0] && f[|f| - 1] == '"';
    assert !IsWhitespace('"') by { QuoteVisible(); }
  }

  lemma QuoteVisible()
    ensures !IsWhitespace('"')
  {
  }

  lemma QuotedReads(key: string, value: string)
    requires !IsBare(key)
    ensures Read(key, value) == value
  {
  }

  lemma SchemeParams(p: string, key: string, value: string)
    requires IndexOfSpace(p) == 6 && |p| > 6 && p[..6] == "Digest" && ParsePart(p[6..]) == Some((key, value))
    ensures NewChallenge(p) == Challenge("Digest", map[key := value])
  {
    hide ParsePart, IndexOfSpace;
    assert map[][key := value] == map[key := value];
  }

  lemma SchemeAndField(f: string)
    requires f != [] && Trimmed(f)
    ensures var p := "Digest " + f;
            && Trim(p) == p && IndexOfSpace(p) == 6 && p[..6] == "Digest" && p[6..] == [' '] + f
            && StartsScheme(p)
  {
    var p := "Digest " + f;
    hide Trim;
    assert p[|p| - 1] == f[|f| - 1];
    assert p[0] == 'D' && !IsWhitespace('D');
    TrimTrimmed(p);
    assert p[6] == ' ' && forall j | 0 <= j < 6 :: p[j] == "Digest"[j];
    assert IndexOfSpace(p) == 6;
    assert IndexOf(p, '=') > 6;
  }

  lemma SplitWritten(fields: Fields)
    requires fields != [] && Contained(fields)
    ensures Split("Digest " + Join(Written(fields), ", ")) ==
            ["Digest " + Field(fields[0].0, fields[0].1)] + Tail(fields[1..])
  {
    hide Contained, Field, Written, Join, Rest, Tail;
    var f := Field(fields[0].0, fields[0].1);
    ContainedTail(fields);
    JoinWritten(fields);
    SplitScheme(f, Rest(fields[1..]));
    assert "Digest " + (f + Rest(fields[1..])) == "Digest " + f + Rest(fields[1..]);
    SplitRest(After(START, f), "Digest " + f, fields[1..]);
  }

  lemma SplitScheme(f: string, rest: string)
    requires NoBreak(START, f)
    ensures Split("Digest " + f + rest) == SplitFrom(After(START, f), "Digest " + f, rest)
  {
    var p := "Digest " + f;
    PlainScan("Digest ");
    hide After, NoBreak;
    AfterConcat(START, "Digest ", f);
    SplitCarry(START, "", p, rest);
    assert "" + p == p;
  }

  /** The parts that the first part of the header opens a challenge for. */
  lemma GroupWritten(key: string, value: string, parts: seq<string>)
    requires IsKey(key) && !IsBare(key)
    ensures Group(None, ["Digest " + Field(key, value)] + parts) ==
            Group(Some(Challenge("Digest", map[key := value])), parts)
  {
    hide Trim, StartsScheme, NewChallenge, Field;
    var p := "Digest " + Field(key, value);
    FirstPart(key, value);
    assert ([p] + parts)[1..] == parts;
    assert Next(None, p) == Some(Challenge("Digest", map[key := value])) && Emitted(None, p) == [];
    hide Next, Emitted;
    var g := Group(Some(Challenge("Digest", map[key := value])), parts);
    assert [] + g == g;
  }

  /** The challenge under way after the written fields. */
  lemma GroupFields(fields: Fields, parts: seq<string>)
    requires fields != [] && Keyed(fields) && Contained(fields) && !IsBare(fields[0].0)
    ensures Group(None, Split("Digest " + Join(Written(fields), ", ")) + parts) ==
            Group(Some(Challenge("Digest", InsertAll(map[], ReadAll(fields)))), parts)
  {
    hide Field, Split, Contained, Tail, Group, Read, ReadAll, IsKey, IsBare, Written, Join;
    var (k, v) := fields[0];
    SplitWritten(fields);
    var first := "Digest " + Field(k, v);
    assert [first] + Tail(fields[1..]) + parts == [first] + (Tail(fields[1..]) + parts);
    GroupWritten(k, v, Tail(fields[1..]) + parts);
    GroupTail(Challenge("Digest", map[k := v]), fields[1..], parts);
    QuotedReads(k, v);
    ReadAllCons(fields);
    assert map[][k := v] == map[k := v];
  }

  lemma ParseWritten(fields: Fields)
    requires fields != [] && Keyed(fields) && Contained(fields) && !IsBare(fields[0].0)
    ensures Parse("Digest " + Join(Written(fields), ", ")) == [Challenge("Digest", InsertAll(map[], ReadAll(fields)))]
  {
    hide Split, Contained, Keyed, IsBare, Written, Join, InsertAll, ReadAll;
    var header := "Digest " + Join(Written(fields), ", ");
    GroupFields(fields, []);
    assert Split(header) + [] == Split(header);
  }

  // ---------- the header of a request ----------

  lemma {:induction false} HexDigits(n: nat)
    ensures forall c | c in Hex(n) :: '0' <= c <= '9' || 'a' <= c <= 'f'
  {
    if n >= 16 { HexDigits(n / 16); }
  }

  lemma {:induction false} PadDigits(s: string, w: nat)
    requires forall c | c in s :: '0' <= c <= '9' || 'a' <= c <= 'f'
    ensures forall c | c in PadLeft(s, w) :: '0' <= c <= '9' || 'a' <= c <= 'f'
    ensures |PadLeft(s, w)| == if |s| < w then w else |s|
    ensures HexValue(PadLeft(s, w)) == HexValue(s)
    decreases w - |s|
  {
    if |s| < w {
      PadDigits("0" + s, w);
      HexLeadingZero(s);
    }
  }

  function HexDigitValue(c: char): (n: int) {
    if '0' <= c <= '9' then c as int - '0' as int else c as int - 'a' as int + 10
  }

  /** The number a hexadecimal string denotes. */
  function HexValue(s: string): (n: int) {
    if s == [] then 0 else 16 * HexValue(s[..|s| - 1]) + HexDigitValue(s[|s| - 1])
  }

  lemma {:induction false} HexLeadingZero(s: string)
    ensures HexValue("0" + s) == HexValue(s)
  {
    if s == [] {
      assert "0" + s == "0" && "0"[..0] == "";
    } else {
      HexLeadingZero(s[..|s| - 1]);
      var z := "0" + s;
      assert z[..|z| - 1] == "0" + s[..|s| - 1];
    }
  }

  lemma DigitValue(n: nat)
    requires n < 16
    ensures HexDigitValue(HexDigit(n)) == n
  {
  }

  lemma HexValueAppend(s: string, c: char)
    ensures HexValue(s + [c]) == 16 * HexValue(s) + HexDigitValue(c)
  {
    hide HexDigitValue;
    assert (s + [c])[..|s|] == s;
  }

  lemma {:induction false} HexRoundTrip(n: nat)
    ensures HexValue(Hex(n)) == n
  {
    hide HexDigit, HexDigitValue, HexValue;
    var d := HexDigit(n % 16);
    DigitValue(n % 16);
    if n >= 16 {
      HexRoundTrip(n / 16);
      HexValueAppend(Hex(n / 16), d);
    } else {
      HexValueAppend("", d);
      NoDigits();
    }
  }

  lemma NoDigits()
    ensures HexValue("") == 0
  {
  }

  lemma {:induction false} HexLength(n: nat, k: nat)
    ensures |Hex(n)| <= k + 1 <==> n < Power16(k + 1)
    decreases k
  {
    if k > 0 && n >= 16 {
      HexLength(n / 16, k - 1);
    }
  }

  function Power16(k: nat): (p: nat)
    ensures p >= 1
  {
    if k == 0 then 1 else 16 * Power16(k - 1)
  }

  /** The nonce count denotes the counter, and is the eight hexadecimal digits that
      section 3.4 of RFC 7616 asks for exactly while the counter fits in 32 bits. */
  lemma NonceCountExact(nc: nat)
    ensures HexValue(NonceCount(nc)) == nc
    ensures |NonceCount(nc)| >= 8 && (|NonceCount(nc)| == 8 <==> nc < 0x1_0000_0000)
    ensures BareSafe(NonceCount(nc)) && forall c | c in NonceCount(nc) :: '0' <= c <= '9' || 'a' <= c <= 'f'
  {
    HexDigits(nc);
    PadDigits(Hex(nc), 8);
    HexRoundTrip(nc);
    HexLength(nc, 7);
    Power16Eight();
    var s := NonceCount(nc);
    assert s[0] in s && s[|s| - 1] in s;
    assert forall c | '0' <= c <= '9' || 'a' <= c <= 'f' :: !IsWhitespace(c);
  }

  lemma Power16Eight()
    ensures Power16(8) == 0x1_0000_0000
  {
    assert Power16(4) == 0x1_0000;
    assert Power16(6) == 256 * Power16(4);
    assert Power16(8) == 256 * Power16(6);
  }

  /** The parser returns a bare value as it is: no outer blanks to lose, no quotes to undo. */
  predicate ReadsBack(value: string) {
    Trimmed(value) && (value != [] ==> value[0] != '"')
  }

  lemma {:induction false} UnescapeShrinks(s: string)
    ensures |Unescape(s)| <= |s|
  {
    if s != [] && s[0] != '"' {
      if s[0] != '\\' {
        UnescapeShrinks(s[1..]);
      } else if |s| > 1 {
        UnescapeShrinks(s[2..]);
      }
    }
  }

  lemma TrimShrinks(s: string)
    ensures |Trim(s)| <= |s|
  {
  }

  lemma ReadsBackExact(value: string)
    ensures Unquote(Trim(value)) == value <==> ReadsBack(value)
  {
    hide Unescape, Trimmed;
    var t := Trim(value);
    TrimTrimmed(value);
    TrimShrinks(value);
    hide Trim;
    if t != [] && t[0] == '"' { UnescapeShrinks(t[1..]); }
  }

  lemma BareSafeReads(value: string)
    requires BareSafe(value)
    ensures ReadsBack(value) && NoBreak(START, value) && Balanced(value)
  {
    hide NoBreak, After;
    PlainScan(value);
    if value != [] { assert value[0] in value; }
  }

  /** The echoed algorithm exposes no comma, and closes its quotes unless it is the last field. */
  predicate AlgorithmContained(r: Request) {
    r.algorithm.Some? ==>
      NoBreak(START, AlgorithmName(r)) && (Balanced(AlgorithmName(r)) || r.opaqueData.None?)
  }

  /** The algorithm, if the server named one, survives being echoed without quotes. */
  predicate Echoable(r: Request) {
    AlgorithmContained(r) && (r.algorithm.Some? ==> ReadsBack(AlgorithmName(r)))
  }

  /** A field that is quoted, or bare with a safe value, or the algorithm. */
  predicate Expected(r: Request, f: (string, string)) {
    IsKey(f.0) && (IsBare(f.0) ==> BareSafe(f.1) || (f == ("algorithm", AlgorithmName(r)) && r.algorithm.Some?))
  }

  lemma FieldsExpected(hash: Hash, r: Request)
    ensures forall f | f in HeaderFields(hash, r) :: Expected(r, f)
  {
    hide NonceCount, Response, OffersAuth, IsSession, BareSafe, IsKey, AlgorithmName;
    NonceCountExact(r.nc);
    KeysAndTokens();
  }

  /** Only the opaque value comes after the algorithm. */
  lemma AlgorithmLast(hash: Hash, r: Request, i: nat)
    requires var fs := HeaderFields(hash, r); i < |fs| - 1 && fs[i].0 == "algorithm"
    ensures r.opaqueData.Some?
  {
    hide NonceCount, Response, OffersAuth, IsSession, AlgorithmName;
    OtherKeys();
  }

  lemma OtherKeys()
    ensures "algorithm" !in ["username", "realm", "nonce", "uri", "qop", "nc", "cnonce", "response"]
  {
  }

  lemma FieldsContained(hash: Hash, r: Request)
    requires AlgorithmContained(r)
    ensures Contained(HeaderFields(hash, r)) && Keyed(HeaderFields(hash, r))
  {
    hide HeaderFields, IsKey, IsBare, BareSafe, NoBreak, Balanced, Field, AlgorithmName;
    FieldsExpected(hash, r);
    var fs := HeaderFields(hash, r);
    forall i | 0 <= i < |fs| ensures ContainedAt(fs, i) && IsKey(fs[i].0) {
      assert fs[i] in fs;
      FieldScan(fs[i].0, fs[i].1);
      if BareSafe(fs[i].1) { BareSafeReads(fs[i].1); }
      if i < |fs| - 1 && fs[i].0 == "algorithm" { AlgorithmLast(hash, r, i); }
      ScanBalance(fs[i].0, fs[i].1);
    }
  }

  lemma ScanBalance(key: string, value: string)
    requires IsKey(key)
    ensures Balanced(Field(key, value)) <==> (IsBare(key) ==> Balanced(value))
  {
    hide Field, After, IsKey, IsBare;
    FieldScan(key, value);
  }

  /** What the parser reads are the fields with the algorithm unquoted and trimmed. */
  lemma FieldsRead(hash: Hash, r: Request)
    ensures ReadAll(HeaderFields(hash, r)) == HeaderFieldsAs(hash, r, Unquote(Trim(AlgorithmName(r))))
  {
    hide NonceCount, Response, OffersAuth, IsSession, AlgorithmName, Unquote, Trim;
    var fs, gs := HeaderFields(hash, r), HeaderFieldsAs(hash, r, Unquote(Trim(AlgorithmName(r))));
    BareTokensRead(r);
    BareKeys();
    assert |fs| == |gs|;
    forall i | 0 <= i < |fs| ensures ReadAll(fs)[i] == gs[i] {
      assert fs[i].0 == gs[i].0 && (IsBare(fs[i].0) || fs[i] == gs[i]);
    }
  }

  lemma BareTokensRead(r: Request)
    ensures Unquote(Trim("auth")) == "auth" && Unquote(Trim(NonceCount(r.nc))) == NonceCount(r.nc)
  {
    hide NonceCount, BareSafe, ReadsBack, Unquote, Trim;
    KeysAndTokens();
    NonceCountExact(r.nc);
    BareSafeReads("auth");
    BareSafeReads(NonceCount(r.nc));
    ReadsBackExact("auth");
    ReadsBackExact(NonceCount(r.nc));
  }

  lemma BareKeys()
    ensures IsBare("qop") && IsBare("nc") && IsBare("algorithm")
    ensures !IsBare("username") && !IsBare("realm") && !IsBare("nonce") && !IsBare("uri")
    ensures !IsBare("cnonce") && !IsBare("response") && !IsBare("opaque")
  {
  }

  lemma KeysAndTokens()
    ensures BareSafe("auth") && BareSafe("MD5")
    ensures IsKey("username") && IsKey("realm") && IsKey("nonce") && IsKey("uri") && IsKey("qop") && IsKey("nc")
    ensures IsKey("cnonce") && IsKey("response") && IsKey("algorithm") && IsKey("opaque")
  {
  }

  function QopParams(r: Request): (params: Params) {
    if OffersAuth(r.qop) then map["qop" := "auth", "nc" := NonceCount(r.nc), "cnonce" := r.cnonce]
    else if IsSession(AlgorithmName(r)) then map["cnonce" := r.cnonce]
    else map[]
  }

  /** What the header says: exactly these fields with exactly these values. */
  function HeaderParams(hash: Hash, r: Request): (params: Params) {
    HeaderParamsAs(hash, r, AlgorithmName(r))
  }

  function HeaderParamsAs(hash: Hash, r: Request, name: string): (params: Params) {
    map["username" := r.username, "realm" := r.realm, "nonce" := r.nonce, "uri" := r.uri]
    + QopParams(r)
    + map["response" := Response(hash, r)]
    + (if r.algorithm.Some? then map["algorithm" := name] else map[])
    + (if r.opaqueData.Some? then map["opaque" := r.opaqueData.value] else map[])
  }

  lemma {:induction false} InsertAllConcat(params: Params, fs: Fields, gs: Fields)
    ensures InsertAll(params, fs + gs) == InsertAll(InsertAll(params, fs), gs)
    decreases |fs|
  {
    if fs == [] {
      assert fs + gs == gs;
    } else {
      assert (fs + gs)[1..] == fs[1..] + gs;
      InsertAllConcat(params[fs[0].0 := fs[0].1], fs[1..], gs);
    }
  }

  lemma InsertOne(params: Params, k: string, v: string)
    ensures InsertAll(params, [(k, v)]) == params + map[k := v]
  {
    assert [(k, v)][1..] == [];
  }

  lemma InsertNone(params: Params)
    ensures InsertAll(params, []) == params == params + map[]
  {
  }

  lemma InsertThree(params: Params, a: (string, string), b: (string, string), c: (string, string))
    ensures InsertAll(params, [a, b, c]) == params + map[a.0 := a.1, b.0 := b.1, c.0 := c.1]
  {
    hide InsertAll;
    assert [a, b, c] == [a] + [b] + [c];
    InsertAllConcat(params, [a] + [b], [c]);
    InsertAllConcat(params, [a], [b]);
    InsertOne(params, a.0, a.1);
    InsertOne(params + map[a.0 := a.1], b.0, b.1);
    InsertOne(params + map[a.0 := a.1] + map[b.0 := b.1], c.0, c.1);
    ThreeUnions(params, a, b, c);
  }

  lemma ThreeUnions(params: Params, a: (string, string), b: (string, string), c: (string, string))
    ensures params + map[a.0 := a.1] + map[b.0 := b.1] + map[c.0 := c.1] ==
            params + map[a.0 := a.1, b.0 := b.1, c.0 := c.1]
  {
    assert map[a.0 := a.1] + map[b.0 := b.1] + map[c.0 := c.1] == map[a.0 := a.1, b.0 := b.1, c.0 := c.1];
  }

  lemma InsertFour(a: (string, string), b: (string, string), c: (string, string), d: (string, string))
    ensures InsertAll(map[], [a, b, c, d]) == map[a.0 := a.1, b.0 := b.1, c.0 := c.1, d.0 := d.1]
  {
    hide InsertAll;
    assert [a, b, c, d] == [a, b, c] + [d];
    InsertAllConcat(map[], [a, b, c], [d]);
    InsertThree(map[], a, b, c);
    var m := map[a.0 := a.1, b.0 := b.1, c.0 := c.1];
    assert map[] + m == m;
    InsertOne(m, d.0, d.1);
    assert m + map[d.0 := d.1] == map[a.0 := a.1, b.0 := b.1, c.0 := c.1, d.0 := d.1];
  }

  lemma FieldsSay(hash: Hash, r: Request, name: string)
    ensures InsertAll(map[], HeaderFieldsAs(hash, r, name)) == HeaderParamsAs(hash, r, name)
  {
    hide InsertAll, Response, NonceCount, OffersAuth, IsSession;
    var f0 := [("username", r.username), ("realm", r.realm), ("nonce", r.nonce), ("uri", r.uri)];
    var f1 := if OffersAuth(r.qop) then [("qop", "auth"), ("nc", NonceCount(r.nc)), ("cnonce", r.cnonce)]
              else if IsSession(AlgorithmName(r)) then [("cnonce", r.cnonce)] else [];
    var f2 := [("response", Response(hash, r))];
    var f3 := if r.algorithm.Some? then [("algorithm", name)] else [];
    var f4 := if r.opaqueData.Some? then [("opaque", r.opaqueData.value)] else [];
    InsertAllConcat(map[], f0 + f1 + f2 + f3, f4);
    InsertAllConcat(map[], f0 + f1 + f2, f3);
    InsertAllConcat(map[], f0 + f1, f2);
    InsertAllConcat(map[], f0, f1);
    InsertFour(f0[0], f0[1], f0[2], f0[3]);
    var m0 := InsertAll(map[], f0);
    if OffersAuth(r.qop) { InsertThree(m0, f1[0], f1[1], f1[2]); }
    InsertOne(m0, "cnonce", r.cnonce);
    InsertNone(m0);
    var m1 := InsertAll(m0, f1);
    InsertOne(m1, "response", Response(hash, r));
    var m2 := InsertAll(m1, f2);
    InsertOne(m2, "algorithm", name);
    InsertNone(m2);
    var m3 := InsertAll(m2, f3);
    if r.opaqueData.Some? { InsertOne(m3, "opaque", r.opaqueData.value); }
    InsertNone(m3);
  }

  /** Whatever the credentials and the challenge contain, the written header is one Digest
      challenge whose parameters are exactly the fields that were written. */
  lemma RoundTrip(hash: Hash, r: Request)
    requires Echoable(r)
    ensures Parse(Authorization(hash, r)) == [Challenge("Digest", HeaderParams(hash, r))]
    ensures FindDigest(Parse(Authorization(hash, r))) == Some(HeaderParams(hash, r))
  {
    hide HeaderFieldsAs, HeaderParamsAs, Parse, Authorization, Unquote, Trim;
    ParseContained(hash, r);
    ReadsBackExact(AlgorithmName(r));
    if r.algorithm.None? { NoAlgorithm(hash, r); }
    assert Lower("Digest") == "digest";
  }

  lemma NoAlgorithm(hash: Hash, r: Request)
    requires r.algorithm.None?
    ensures HeaderParamsAs(hash, r, Unquote(Trim(AlgorithmName(r)))) == HeaderParams(hash, r)
  {
  }

  lemma ParseContained(hash: Hash, r: Request)
    requires AlgorithmContained(r)
    ensures Parse(Authorization(hash, r)) ==
            [Challenge("Digest", HeaderParamsAs(hash, r, Unquote(Trim(AlgorithmName(r)))))]
  {
    hide HeaderFields, HeaderFieldsAs, InsertAll, HeaderParamsAs, Parse, Written, Contained, Keyed, Unquote, Trim;
    HeaderNonempty(hash, r);
    FieldsContained(hash, r);
    ParseWritten(HeaderFields(hash, r));
    FieldsRead(hash, r);
    FieldsSay(hash, r, Unquote(Trim(AlgorithmName(r))));
  }

  lemma HeaderNonempty(hash: Hash, r: Request)
    ensures HeaderFields(hash, r) != [] && !IsBare(HeaderFields(hash, r)[0].0)
  {
    BareKeys();
  }

  // ---------- the server's side ----------

  /** The algorithm tokens of section 3.3 of RFC 7616, case-insensitive. */
  function RfcAlgorithm(token: string): (a: Option<(Algorithm, bool)>) {
    var t := Upper(token);
    if t == "MD5" then Some((MD5, false))
    else if t == "MD5-SESS" then Some((MD5, true))
    else if t == "SHA-256" then Some((SHA256, false))
    else if t == "SHA-256-SESS" then Some((SHA256, true))
    else if t == "SHA-512-256" then Some((SHA512_256, false))
    else if t == "SHA-512-256-SESS" then Some((SHA512_256, true))
    else None
  }

  /** The response a server expects, from the header's parameters, the password it has on
      file and the method it saw (section 3.4.1 of RFC 7616; a missing algorithm is MD5). */
  function ServerResponse(hash: Hash, params: Params, password: string, httpMethod: string): (r: Option<string>) {
    var a := if "algorithm" in params then RfcAlgorithm(params["algorithm"]) else Some((MD5, false));
    if a.None? || !({"username", "realm", "nonce", "uri"} <= params.Keys) then None
    else
      var (alg, sess) := a.value;
      var nonce := params["nonce"];
      var userHash := hash(alg, params["username"] + ":" + params["realm"] + ":" + password);
      if (sess || "qop" in params) && "cnonce" !in params then None
      else
        var ha1 := if sess then hash(alg, userHash + ":" + nonce + ":" + params["cnonce"]) else userHash;
        var ha2 := hash(alg, httpMethod + ":" + params["uri"]);
        if "qop" !in params then Some(hash(alg, ha1 + ":" + nonce + ":" + ha2))
        else if params["qop"] != "auth" || "nc" !in params then None
        else
          Some(hash(alg, ha1 + ":" + nonce + ":" + params["nc"] + ":" + params["cnonce"] + ":" + params["qop"]
                         + ":" + ha2))
  }

  lemma UpperTwice(s: string)
    ensures Upper(Upper(s)) == Upper(s)
  {
  }

  /** The prefix and suffix tests of the writer tell the six tokens apart. */
  lemma TokenParts(t: string)
    requires t in ["MD5", "MD5-SESS", "SHA-256", "SHA-256-SESS", "SHA-512-256", "SHA-512-256-SESS"]
    ensures StartsWith(t, "SHA-512-256") <==> t == "SHA-512-256" || t == "SHA-512-256-SESS"
    ensures StartsWith(t, "SHA-256") <==> t == "SHA-256" || t == "SHA-256-SESS"
    ensures EndsWith(t, "-SESS") <==> t == "MD5-SESS" || t == "SHA-256-SESS" || t == "SHA-512-256-SESS"
    ensures BareSafe(t)
  {
    hide Trimmed, IsWhitespace;
    assert !IsWhitespace('M') && !IsWhitespace('S') && !IsWhitespace('5') && !IsWhitespace('6') by { LettersVisible(); }
    TokenPrefix(t);
    TokenSuffix(t);
    assert Trimmed(t) by { TokenEnds(t); }
  }

  lemma LettersVisible()
    ensures !IsWhitespace('M') && !IsWhitespace('S') && !IsWhitespace('5') && !IsWhitespace('6')
  {
  }

  lemma TokenEnds(t: string)
    requires t in ["MD5", "MD5-SESS", "SHA-256", "SHA-256-SESS", "SHA-512-256", "SHA-512-256-SESS"]
    ensures Trimmed(t)
  {
    LettersVisible();
    hide IsWhitespace;
    assert t[0] == 'M' || t[0] == 'S';
    assert t[|t| - 1] == '5' || t[|t| - 1] == 'S' || t[|t| - 1] == '6';
  }

  lemma TokenPrefix(t: string)
    requires t in ["MD5", "MD5-SESS", "SHA-256", "SHA-256-SESS", "SHA-512-256", "SHA-512-256-SESS"]
    ensures StartsWith(t, "SHA-512-256") <==> t == "SHA-512-256" || t == "SHA-512-256-SESS"
    ensures StartsWith(t, "SHA-256") <==> t == "SHA-256" || t == "SHA-256-SESS"
  {
    var long, short := "SHA-512-256", "SHA-256";
    assert t[0] == 'M' ==> !(long <= t) && !(short <= t);
    if t[0] == 'S' {
      assert long[4] == '5' && short[4] == '2';
      assert t[4] == '2' ==> !(long <= t);
      assert t[4] == '5' ==> !(short <= t);
    }
  }

  lemma TokenSuffix(t: string)
    requires t in ["MD5", "MD5-SESS", "SHA-256", "SHA-256-SESS", "SHA-512-256", "SHA-512-256-SESS"]
    ensures EndsWith(t, "-SESS") <==> t == "MD5-SESS" || t == "SHA-256-SESS" || t == "SHA-512-256-SESS"
  {
    if |t| >= 5 {
      var u := t[|t| - 5..];
      assert t[|t| - 1] == u[4] && t[|t| - 5] == u[0];
      if t[|t| - 1] == 'S' {
        assert u == "-SESS";
      }
    }
  }

  lemma RfcTokens(name: string)
    requires RfcAlgorithm(name).Some?
    ensures RfcAlgorithm(name) == Some((BaseAlgorithm(name), IsSession(name)))
    ensures BareSafe(Upper(name)) && RfcAlgorithm(Upper(name)) == RfcAlgorithm(name)
  {
    hide Upper, StartsWith, EndsWith, BareSafe;
    UpperTwice(name);
    TokenParts(Upper(name));
  }

  /** A server that parses the header and recomputes the response from what it parsed gets
      the value in the header, for any hash and any of the six algorithms. */
  lemma ServerAgrees(hash: Hash, r: Request)
    requires r.algorithm.Some? ==> RfcAlgorithm(r.algorithm.value).Some?
    ensures exists params :: FindDigest(Parse(Authorization(hash, r))) == Some(params)
              && "response" in params
              && ServerResponse(hash, params, r.password, r.httpMethod) == Some(params["response"])
  {
    hide Parse, FindDigest, Authorization, HeaderParams, ServerResponse, RfcAlgorithm, BareSafe, Upper;
    if r.algorithm.Some? {
      RfcTokens(r.algorithm.value);
      BareSafeReads(AlgorithmName(r));
    }
    RoundTrip(hash, r);
    ParamsCarried(hash, r);
    Recompute(hash, r, HeaderParams(hash, r));
  }

  /** The header's parameters, looked up one by one. */
  ghost predicate Carries(hash: Hash, r: Request, params: Params) {
    && {"username", "realm", "nonce", "uri", "response"} <= params.Keys
    && params["username"] == r.username
    && params["realm"] == r.realm
    && params["nonce"] == r.nonce
    && params["uri"] == r.uri
    && params["response"] == Response(hash, r)
    && ("qop" in params <==> OffersAuth(r.qop))
    && ("nc" in params <==> OffersAuth(r.qop))
    && ("qop" in params ==> params["qop"] == "auth" && params["nc"] == NonceCount(r.nc))
    && ("cnonce" in params <==> OffersAuth(r.qop) || IsSession(AlgorithmName(r)))
    && ("cnonce" in params ==> params["cnonce"] == r.cnonce)
    && ("algorithm" in params <==> r.algorithm.Some?)
    && ("algorithm" in params ==> params["algorithm"] == AlgorithmName(r))
    && ("opaque" in params <==> r.opaqueData.Some?)
    && ("opaque" in params ==> params["opaque"] == r.opaqueData.value)
  }

  lemma ParamsCarried(hash: Hash, r: Request)
    ensures Carries(hash, r, HeaderParams(hash, r))
  {
    hide Response, NonceCount, OffersAuth, IsSession, AlgorithmName;
    DistinctKeys();
    var ks := ["username", "realm", "nonce", "uri", "qop", "nc", "cnonce", "response", "algorithm", "opaque"];
    var algorithm: Params := if r.algorithm.Some? then map["algorithm" := AlgorithmName(r)] else map[];
    var extra: Params := if r.opaqueData.Some? then map["opaque" := r.opaqueData.value] else map[];
    UnionLookups(ks, r.username, r.realm, r.nonce, r.uri, QopParams(r), Response(hash, r), algorithm, extra);
  }

  ghost predicate GroupKeys(ks: seq<string>, qop: Params, algorithm: Params, extra: Params) {
    && |ks| == 10 && (forall i, j | 0 <= i < j < 10 :: ks[i] != ks[j])
    && qop.Keys <= {ks[4], ks[5], ks[6]} && algorithm.Keys <= {ks[8]} && extra.Keys <= {ks[9]}
  }

  /** The keys are distinct, so each is found in its own group only. */
  lemma Apart(ks: seq<string>, qop: Params, algorithm: Params, extra: Params)
    requires GroupKeys(ks, qop, algorithm, extra)
    ensures forall i | 0 <= i < 10 && !(4 <= i < 7) :: ks[i] !in qop
    ensures forall i | 0 <= i < 10 && i != 8 :: ks[i] !in algorithm
    ensures forall i | 0 <= i < 10 && i != 9 :: ks[i] !in extra
  {
  }

  lemma FirstGroup(ks: seq<string>, a: string, b: string, c: string, d: string)
    requires |ks| == 10 && (forall i, j | 0 <= i < j < 10 :: ks[i] != ks[j])
    ensures var m := map[ks[0] := a, ks[1] := b, ks[2] := c, ks[3] := d];
            && m.Keys == {ks[0], ks[1], ks[2], ks[3]}
            && m[ks[0]] == a && m[ks[1]] == b && m[ks[2]] == c && m[ks[3]] == d
            && forall i | 4 <= i < 10 :: ks[i] !in m
  {
  }

  /** Looking up each of ten distinct keys in the union of the header's groups. */
  lemma UnionLookups(ks: seq<string>, a: string, b: string, c: string, d: string, qop: Params, e: string,
                     algorithm: Params, extra: Params)
    requires GroupKeys(ks, qop, algorithm, extra)
    ensures var first := map[ks[0] := a, ks[1] := b, ks[2] := c, ks[3] := d];
            var params := first + qop + map[ks[7] := e] + algorithm + extra;
            && {ks[0], ks[1], ks[2], ks[3], ks[7]} <= params.Keys
            && params[ks[0]] == a && params[ks[1]] == b && params[ks[2]] == c && params[ks[3]] == d
            && params[ks[7]] == e
            && (forall i | 4 <= i < 7 :: ks[i] in params <==> ks[i] in qop)
            && (forall i | 4 <= i < 7 && ks[i] in qop :: params[ks[i]] == qop[ks[i]])
            && (ks[8] in params <==> ks[8] in algorithm)
            && (ks[8] in algorithm ==> params[ks[8]] == algorithm[ks[8]])
            && (ks[9] in params <==> ks[9] in extra)
            && (ks[9] in extra ==> params[ks[9]] == extra[ks[9]])
  {
    Apart(ks, qop, algorithm, extra);
    FirstGroup(ks, a, b, c, d);
    assert forall i | 0 <= i < 10 && i != 7 :: ks[i] != ks[7];
    hide GroupKeys;
  }

  lemma DistinctKeys()
    ensures var ks := ["username", "realm", "nonce", "uri", "qop", "nc", "cnonce", "response", "algorithm", "opaque"];
            forall i, j | 0 <= i < j < 10 :: ks[i] != ks[j]
  {
    var ks := ["username", "realm", "nonce", "uri", "qop", "nc", "cnonce", "response", "algorithm", "opaque"];
    var marks := [('u', 8), ('r', 5), ('n', 5), ('u', 3), ('q', 3), ('n', 2), ('c', 6), ('r', 8), ('a', 9), ('o', 6)];
    assert forall i | 0 <= i < 10 :: ks[i][0] == marks[i].0 && |ks[i]| == marks[i].1;
    assert forall i, j | 0 <= i < j < 10 :: marks[i] != marks[j];
  }

  lemma NamedAlgorithm(r: Request)
    requires r.algorithm.Some? ==> RfcAlgorithm(r.algorithm.value).Some?
    ensures var name := AlgorithmName(r); RfcAlgorithm(name) == Some((BaseAlgorithm(name), IsSession(name)))
    ensures r.algorithm.None? ==> BaseAlgorithm(AlgorithmName(r)) == MD5 && !IsSession(AlgorithmName(r))
  {
    hide BaseAlgorithm, IsSession;
    if r.algorithm.Some? {
      RfcTokens(r.algorithm.value);
    } else {
      assert Upper("MD5") == "MD5";
    }
    RfcTokens(AlgorithmName(r));
  }

  lemma Recompute(hash: Hash, r: Request, params: Params)
    requires Carries(hash, r, params)
    requires r.algorithm.Some? ==> RfcAlgorithm(r.algorithm.value).Some?
    ensures ServerResponse(hash, params, r.password, r.httpMethod) == Some(params["response"])
  {
    hide RfcAlgorithm, BaseAlgorithm, IsSession, OffersAuth, NonceCount, AlgorithmName;
    NamedAlgorithm(r);
  }
}
