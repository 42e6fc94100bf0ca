/** Parsing of `WWW-Authenticate` values (section 4.1 of RFC 7235): splitting on the commas
    outside quoted strings, then grouping the parts into challenges. */
module Challenge {
  import opened Text

  type Params = map<string, string>

  datatype Challenge = Challenge(scheme: string, params: Params)

  // ---------- scanning ----------

  datatype Scan = Scan(inQuotes: bool, escaped: bool)

  const START := Scan(false, false)
  const QUOTED := Scan(true, false)

  function Advance(st: Scan, c: char): (next: Scan) {
    if st.escaped then st.(escaped := false)
    else if c == '\\' && st.inQuotes then st.(escaped := true)
    else if c == '"' then st.(inQuotes := !st.inQuotes)
    else st
  }

  /** A comma that ends a part. */
  predicate Breaks(st: Scan, c: char) {
    !st.escaped && c == ',' && !st.inQuotes
  }

  function After(st: Scan, s: string): (end: Scan)
    decreases |s|
  {
    if s == [] then st else After(Advance(st, s[0]), s[1..])
  }

  predicate NoBreak(st: Scan, s: string)
    decreases |s|
  {
    s == [] || (!Breaks(st, s[0]) && NoBreak(Advance(st, s[0]), s[1..]))
  }

  /** Every quoted string that is opened is closed. */
  predicate Balanced(s: string) {
    After(START, s) == START
  }

  function SplitFrom(st: Scan, part: string, s: string): (parts: seq<string>)
    ensures parts != []
    decreases |s|
  {
    if s == [] then [part]
    else if Breaks(st, s[0]) then [part] + SplitFrom(Advance(st, s[0]), "", s[1..])
    else SplitFrom(Advance(st, s[0]), part + [s[0]], s[1..])
  }

  function Split(s: string): (parts: seq<string>)
    ensures parts != []
  {
    SplitFrom(START, "", s)
  }

  method SplitChallengeParts(header: string) returns (parts: seq<string>)
    ensures parts == Split(header)
  {
    parts := [];
    var partStart := 0;
    var inQuotes, escaped := false, false;
    for i := 0 to |header|
      invariant 0 <= partStart <= i
      invariant parts + SplitFrom(Scan(inQuotes, escaped), header[partStart..i], header[i..]) == Split(header)
    {
      var b := header[i];
      assert header[i..][1..] == header[i + 1..];
      assert header[partStart..i] + [b] == header[partStart..i + 1];
      if escaped {
        escaped := false;
        continue;
      }
      if b == '\\' && inQuotes {
        escaped := true;
      } else if b == '"' {
        inQuotes := !inQuotes;
      } else if b == ',' && !inQuotes {
        parts := parts + [header[partStart..i]];
        partStart := i + 1;
        assert header[partStart..i + 1] == "";
      }
    }
    assert header[|header|..] == "";
    assert header[partStart..|header|] == header[partStart..];
    parts := parts + [header[partStart..]];
  }

  lemma {:induction false} AfterConcat(st: Scan, s: string, t: string)
    ensures After(st, s + t) == After(After(st, s), t)
    ensures NoBreak(st, s + t) <==> NoBreak(st, s) && NoBreak(After(st, s), t)
    decreases |s|
  {
    if s == [] {
      assert s + t == t;
    } else {
      AfterConcat(Advance(st, s[0]), s[1..], t);
      assert (s + t)[1..] == s[1..] + t;
    }
  }

  /** A stretch without a breaking comma is carried into the current part. */
  lemma {:induction false} SplitCarry(st: Scan, part: string, s: string, t: string)
    requires NoBreak(st, s)
    ensures SplitFrom(st, part, s + t) == SplitFrom(After(st, s), part + s, t)
    decreases |s|
  {
    if s == [] {
      assert s + t == t && part + s == part;
    } else {
      assert (s + t)[1..] == s[1..] + t;
      assert part + [s[0]] + s[1..] == part + s;
      SplitCarry(Advance(st, s[0]), part + [s[0]], s[1..], t);
    }
  }

  /** Joining the parts with commas restores the header; no part contains a breaking
      comma, and every part but the last is quote-balanced. */
  lemma SplitLossless(s: string)
    ensures Join(Split(s), ",") == s
    ensures forall i | 0 <= i < |Split(s)| :: NoBreak(START, Split(s)[i])
    ensures forall i | 0 <= i < |Split(s)| - 1 :: Balanced(Split(s)[i])
  {
    assert "" + s == s;
    SplitLosslessFrom("", s);
  }

  lemma {:induction false} SplitLosslessFrom(part: string, s: string)
    requires NoBreak(START, part)
    ensures var parts := SplitFrom(After(START, part), part, s);
            && Join(parts, ",") == part + s
            && (forall i | 0 <= i < |parts| :: NoBreak(START, parts[i]))
            && (forall i | 0 <= i < |parts| - 1 :: Balanced(parts[i]))
    decreases |s|
  {
    var st := After(START, part);
    AfterIsScan(START, part);
    if s == [] {
      assert part + s == part;
    } else if Breaks(st, s[0]) {
      SplitLosslessFrom("", s[1..]);
      var rest := SplitFrom(START, "", s[1..]);
      var parts := [part] + rest;
      assert parts[1..] == rest;
      assert part + "," + s[1..] == part + s;
    } else {
      AfterConcat(START, part, [s[0]]);
      SplitLosslessFrom(part + [s[0]], s[1..]);
      assert part + [s[0]] + s[1..] == part + s;
    }
  }

  /** An escape is only ever pending inside quotes. */
  lemma {:induction false} AfterIsScan(st: Scan, s: string)
    requires st.escaped ==> st.inQuotes
    ensures After(st, s).escaped ==> After(st, s).inQuotes
    decreases |s|
  {
    if s != [] { AfterIsScan(Advance(st, s[0]), s[1..]); }
  }

  /** A comma after a balanced prefix splits there. */
  lemma {:induction false} SplitAppend(st: Scan, part: string, s: string, t: string)
    requires After(st, s) == START
    ensures SplitFrom(st, part, s + "," + t) == SplitFrom(st, part, s) + Split(t)
    decreases |s|
  {
    var whole := s + "," + t;
    if s == [] {
      assert whole[0] == ',' && whole[1..] == t;
    } else {
      assert whole[0] == s[0] && whole[1..] == s[1..] + "," + t;
      var next := if Breaks(st, s[0]) then "" else part + [s[0]];
      SplitAppend(Advance(st, s[0]), next, s[1..], t);
    }
  }

  lemma {:induction false} SplitPrefix(st: Scan, x: string, part: string, s: string)
    ensures SplitFrom(st, x + part, s) == [x + SplitFrom(st, part, s)[0]] + SplitFrom(st, part, s)[1..]
    decreases |s|
  {
    if s != [] && !Breaks(st, s[0]) {
      SplitPrefix(st, x, part, "");
      SplitPrefix(Advance(st, s[0]), x, part + [s[0]], s[1..]);
      assert x + part + [s[0]] == x + (part + [s[0]]);
    }
  }

  // ---------- one `key=value` part ----------

  /** Undo the quoted-pair escapes of a quoted string whose opening quote is gone. */
  function Unescape(s: string): (v: string) {
    if s == [] || s[0] == '"' then ""
    else if s[0] == '\\' then (if |s| == 1 then "" else [s[1]] + Unescape(s[2..]))
    else [s[0]] + Unescape(s[1..])
  }

  function Unquote(value: string): (v: string) {
    if value == [] || value[0] != '"' then value else Unescape(value[1..])
  }

  method UnquoteChallengeValue(value: string) returns (out: string)
    ensures out == Unquote(value)
  {
    if value == [] || value[0] != '"' { return value; }
    out := "";
    var escaped := false;
    ghost var all := Unescape(value[1..]);
    for i := 1 to |value|
      invariant !escaped ==> out + Unescape(value[i..]) == all
      invariant escaped ==> out + (if i == |value| then "" else [value[i]] + Unescape(value[i + 1..])) == all
    {
      var ch := value[i];
      assert value[i..][1..] == value[i + 1..];
      assert i + 1 < |value| ==> value[i..][2..] == value[i + 2..] && value[i..][1] == value[i + 1];
      if escaped {
        out := out + [ch];
        escaped := false;
      } else if ch == '\\' {
        escaped := true;
      } else if ch == '"' {
        return;
      } else {
        out := out + [ch];
      }
    }
    assert value[|value|..] == "";
  }

  function ParsePart(part: string): (kv: Option<(string, string)>) {
    var p := Trim(part);
    var i := IndexOf(p, '=');
    if p == "" || i == |p| then None
    else Some((Lower(Trim(p[..i])), Unquote(Trim(p[i + 1..]))))
  }

  method ParseChallengePart(part: string) returns (kv: Option<(string, string)>)
    ensures kv == ParsePart(part)
  {
    var p := Trim(part);
    if p == "" { return None; }
    var i := IndexOf(p, '=');
    if i == |p| { return None; }
    var v := UnquoteChallengeValue(Trim(p[i + 1..]));
    return Some((Lower(Trim(p[..i])), v));
  }

  // ---------- grouping parts into challenges ----------

  /** The first token is not a `key=value`: a new challenge begins. */
  predicate StartsScheme(p: string) {
    var eq := IndexOf(p, '=');
    eq == |p| || eq > IndexOfSpace(p)
  }

  function Insert(params: Params, part: string): (r: Params) {
    match ParsePart(part)
    case None => params
    case Some((k, v)) => params[k := v]
  }

  function NewChallenge(p: string): (c: Challenge) {
    var i := IndexOfSpace(p);
    Challenge(p[..i], Insert(map[], p[i..]))
  }

  function Flush(current: Option<Challenge>): (cs: seq<Challenge>) {
    if current.None? then [] else [current.value]
  }

  /** The challenges a part completes, and the challenge under way after it. */
  function Emitted(current: Option<Challenge>, part: string): (cs: seq<Challenge>) {
    var p := Trim(part);
    if p != "" && StartsScheme(p) then Flush(current) else []
  }

  function Next(current: Option<Challenge>, part: string): (next: Option<Challenge>) {
    var p := Trim(part);
    if p == "" then current
    else if StartsScheme(p) then Some(NewChallenge(p))
    else if current.None? then None
    else Some(current.value.(params := Insert(current.value.params, p)))
  }

  function Group(current: Option<Challenge>, parts: seq<string>): (cs: seq<Challenge>)
    decreases |parts|
  {
    if parts == [] then Flush(current)
    else Emitted(current, parts[0]) + Group(Next(current, parts[0]), parts[1..])
  }

  function Parse(header: string): (cs: seq<Challenge>) {
    Group(None, Split(header))
  }

  method ParseScheme(p: string) returns (c: Challenge)
    ensures c == NewChallenge(p)
  {
    var i := IndexOfSpace(p);
    var params: Params := map[];
    var kv := ParseChallengePart(p[i..]);
    if kv.Some? { params := params[kv.value.0 := kv.value.1]; }
    return Challenge(p[..i], params);
  }

  /** One round of the parsing loop. */
  method AbsorbPart(current: Option<Challenge>, part: string)
    returns (completed: seq<Challenge>, next: Option<Challenge>)
    ensures completed == Emitted(current, part) && next == Next(current, part)
  {
    hide Trim;
    var p := Trim(part);
    completed, next := [], current;
    if p == "" { return; }
    if StartsScheme(p) {
      if current.Some? { completed := [current.value]; }
      var begun := ParseScheme(p);
      next := Some(begun);
    } else if current.Some? {
      hide StartsScheme;
      var kv := ParseChallengePart(p);
      if kv.Some? {
        next := Some(current.value.(params := current.value.params[kv.value.0 := kv.value.1]));
      }
    }
  }

  method ParseChallenges(header: string) returns (challenges: seq<Challenge>)
    ensures challenges == Parse(header)
  {
    hide Split, Emitted, Next;
    challenges := [];
    var current: Option<Challenge> := None;
    var parts := SplitChallengeParts(header);
    for i := 0 to |parts|
      invariant challenges + Group(current, parts[i..]) == Parse(header)
    {
      assert parts[i..][0] == parts[i] && parts[i..][1..] == parts[i + 1..];
      var completed;
      completed, current := AbsorbPart(current, parts[i]);
      challenges := challenges + completed;
    }
    assert parts[|parts|..] == [];
    if current.Some? { challenges := challenges + [current.value]; }
  }

  /** The first part that is not blank begins a challenge (or all are blank). */
  predicate BeginsWithScheme(parts: seq<string>) {
    parts == [] ||
    (if Trim(parts[0]) == "" then BeginsWithScheme(parts[1..]) else StartsScheme(Trim(parts[0])))
  }

  lemma {:induction false} GroupFresh(current: Option<Challenge>, parts: seq<string>)
    requires BeginsWithScheme(parts)
    ensures Group(current, parts) == Flush(current) + Group(None, parts)
  {
    hide StartsScheme, Trim, NewChallenge, Insert;
    if parts != [] {
      if Trim(parts[0]) == "" {
        assert Emitted(current, parts[0]) == [] && Next(current, parts[0]) == current;
        assert Emitted(None, parts[0]) == [] && Next(None, parts[0]) == None;
        hide Emitted, Next;
        GroupFresh(current, parts[1..]);
        var g, h := Group(current, parts[1..]), Group(None, parts[1..]);
        assert [] + g == g && [] + h == h;
      } else {
        assert Emitted(current, parts[0]) == Flush(current) && Next(current, parts[0]) == Next(None, parts[0]);
        assert Emitted(None, parts[0]) == [];
        hide Emitted, Next;
        var h := Group(Next(None, parts[0]), parts[1..]);
        assert [] + h == h;
      }
    }
  }

  lemma {:induction false} GroupConcat(current: Option<Challenge>, ps: seq<string>, qs: seq<string>)
    requires BeginsWithScheme(qs)
    ensures Group(current, ps + qs) == Group(current, ps) + Group(None, qs)
    decreases |ps|
  {
    hide Emitted, Next, StartsScheme, Trim;
    if ps == [] {
      assert ps + qs == qs;
      GroupFresh(current, qs);
    } else {
      assert (ps + qs)[1..] == ps[1..] + qs;
      GroupConcat(Next(current, ps[0]), ps[1..], qs);
    }
  }

  lemma GroupTrims(current: Option<Challenge>, p: string, q: string, rest: seq<string>)
    requires Trim(p) == Trim(q)
    ensures Group(current, [p] + rest) == Group(current, [q] + rest)
    ensures BeginsWithScheme([p] + rest) <==> BeginsWithScheme([q] + rest)
  {
    hide StartsScheme, Trim, NewChallenge, Insert;
    assert ([p] + rest)[1..] == rest == ([q] + rest)[1..];
  }

  /** Several challenges in one header: parsing `h1, h2` gives the challenges of `h1`
      followed by those of `h2`. */
  lemma ParseConcat(h1: string, h2: string)
    requires Balanced(h1) && BeginsWithScheme(Split(h2))
    ensures Parse(h1 + ", " + h2) == Parse(h1) + Parse(h2)
  {
    hide Group, BeginsWithScheme, Trim, After;
    var ps, qs := Split(h1), Split(h2);
    assert h1 + ", " + h2 == h1 + "," + (" " + h2);
    SplitAppend(START, "", h1, " " + h2);
    assert (" " + h2)[1..] == h2 && "" + [' '] == " " == " " + "";
    SplitPrefix(START, " ", "", h2);
    var rs := Split(" " + h2);
    hide Split, SplitFrom;
    assert rs == [" " + qs[0]] + qs[1..];
    TrimSpace(qs[0]);
    assert qs == [qs[0]] + qs[1..];
    GroupTrims(None, " " + qs[0], qs[0], qs[1..]);
    GroupConcat(None, ps, rs);
  }

  // ---------- picking the Digest challenge ----------

  function FindDigest(cs: seq<Challenge>): (params: Option<Params>) {
    if cs == [] then None
    else if Lower(cs[0].scheme) == "digest" then Some(cs[0].params)
    else FindDigest(cs[1..])
  }
}
