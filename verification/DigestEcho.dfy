/** The server's algorithm name is echoed without quotes.  Exactly which names survive: the
    other half of `Digest.RoundTrip`. */
module DigestEcho {
  import opened Text
  import opened Challenge
  import opened Digest

  // ---------- where a parameter can come from ----------

  /** The first challenge has `v` under `k` only if it had it before or some part brings it. */
  lemma {:induction false} GroupLacks(c: Challenge, parts: seq<string>, k: string, v: string)
    requires !(k in c.params && c.params[k] == v)
    requires forall i | 0 <= i < |parts| :: ParsePart(parts[i]) != Some((k, v))
    ensures var g := Group(Some(c), parts);
            g != [] && g[0].scheme == c.scheme && !(k in g[0].params && g[0].params[k] == v)
    decreases |parts|
  {
    hide Trim, StartsScheme, NewChallenge, ParsePart;
    if parts != [] {
      ParseTrims(parts[0]);
      var p := Trim(parts[0]);
      if p == "" || !StartsScheme(p) {
        var next := Next(Some(c), parts[0]).value;
        assert next.scheme == c.scheme;
        GroupLacks(next, parts[1..], k, v);
      }
    }
  }

  lemma {:induction false} InsertAllLacks(params: Params, fields: Fields, k: string)
    requires k !in params && forall i | 0 <= i < |fields| :: fields[i].0 != k
    ensures k !in InsertAll(params, fields)
    decreases |fields|
  {
    if fields != [] { InsertAllLacks(params[fields[0].0 := fields[0].1], fields[1..], k); }
  }

  // ---------- a weight that no reading increases ----------

  /** How many characters are neither quotes nor backslashes. */
  function Weight(s: string): (n: nat) {
    if s == [] then 0 else (if s[0] == '"' || s[0] == '\\' then 0 else 1) + Weight(s[1..])
  }

  lemma {:induction false} WeightConcat(s: string, t: string)
    ensures Weight(s + t) == Weight(s) + Weight(t)
  {
    if s == [] {
      assert s + t == t;
    } else {
      assert (s + t)[1..] == s[1..] + t;
      WeightConcat(s[1..], t);
    }
  }

  lemma WeightSlice(s: string, i: nat, j: nat)
    requires i <= j <= |s|
    ensures Weight(s[i..j]) <= Weight(s)
  {
    hide Weight;
    assert s == s[..i] + (s[i..j] + s[j..]);
    WeightConcat(s[..i], s[i..j] + s[j..]);
    WeightConcat(s[i..j], s[j..]);
  }

  lemma WeightAfter(s: string, i: nat)
    requires i < |s| && s[i] == '='
    ensures Weight(s[i + 1..]) < Weight(s)
  {
    assert s == s[..i] + ("=" + s[i + 1..]);
    WeightConcat(s[..i], "=" + s[i + 1..]);
    assert ("=" + s[i + 1..])[1..] == s[i + 1..];
  }

  lemma {:induction false} WeightUnescape(s: string)
    ensures Weight(Unescape(s)) <= Weight(s)
  {
    if s != [] && s[0] != '"' {
      if s[0] != '\\' {
        WeightUnescape(s[1..]);
        assert Unescape(s)[1..] == Unescape(s[1..]);
      } else if |s| > 1 {
        WeightUnescape(s[2..]);
        assert Unescape(s)[1..] == Unescape(s[2..]);
        assert s[1..][1..] == s[2..];
      }
    }
  }

  lemma WeightTrim(s: string)
    ensures Weight(Trim(s)) <= Weight(s)
  {
    hide Weight;
    var t := TrimStart(s);
    TrimStartSuffix(s);
    TrimEndPrefix(t);
    WeightSlice(s, |s| - |t|, |s|);
    WeightSlice(t, 0, |TrimEnd(t)|);
    assert s[|s| - |t|..|s|] == t && t[0..|TrimEnd(t)|] == TrimEnd(t);
  }

  lemma WeightUnquote(s: string)
    ensures Weight(Unquote(s)) <= Weight(s)
  {
    if s != [] && s[0] == '"' { WeightUnescape(s[1..]); }
  }

  /** A parsed value weighs less than its part. */
  lemma WeightValue(part: string)
    ensures ParsePart(part).Some? ==> Weight(ParsePart(part).value.1) < Weight(part)
  {
    hide Weight, Trim, Unquote, Lower, IndexOf;
    var p := Trim(part);
    WeightTrim(part);
    var i := IndexOf(p, '=');
    if i < |p| {
      WeightAfter(p, i);
      WeightTrim(p[i + 1..]);
      WeightUnquote(Trim(p[i + 1..]));
    }
  }

  lemma {:induction false} WeightParts(st: Scan, part: string, s: string)
    ensures forall i | 0 <= i < |SplitFrom(st, part, s)| ::
              Weight(SplitFrom(st, part, s)[i]) <= Weight(part) + Weight(s)
    decreases |s|
  {
    if s != [] {
      if Breaks(st, s[0]) {
        WeightParts(Advance(st, s[0]), "", s[1..]);
      } else {
        WeightConcat(part, [s[0]]);
        assert [s[0]][1..] == "";
        WeightParts(Advance(st, s[0]), part + [s[0]], s[1..]);
      }
    }
  }

  lemma {:induction false} WeightEscape(value: string)
    ensures Weight(Escape(value)) == Weight(value)
  {
    if value != [] {
      WeightEscape(value[1..]);
      EscapeCons(value);
      var e := EscapeChar(value[0]);
      hide Escape;
      WeightConcat(e, Escape(value[1..]));
      if |e| == 2 { assert e[1..][1..] == ""; } else { assert e[1..] == ""; }
    }
  }

  // ---------- quotes in an escaped value ----------

  /** Every quote but a last one follows a backslash. */
  predicate Guarded(s: string) {
    forall j | 0 <= j < |s| - 1 :: GuardedAt(s, j)
  }

  predicate GuardedAt(s: string, j: nat)
    requires j < |s|
  {
    s[j] == '"' ==> j > 0 && s[j - 1] == '\\'
  }

  /** An escaped value and its closing quote. */
  function Closed(value: string): (s: string) {
    Escape(value) + "\""
  }

  predicate AllGuarded(s: string) {
    forall j | 0 <= j < |s| :: GuardedAt(s, j)
  }

  lemma {:induction false} EscapeGuarded(value: string)
    ensures AllGuarded(Escape(value))
  {
    if value != [] {
      EscapeGuarded(value[1..]);
      EscapeCons(value);
      hide Escape;
      var e, t := EscapeChar(value[0]), Escape(value[1..]);
      var s := e + t;
      forall j | 0 <= j < |s| ensures GuardedAt(s, j) {
        if j >= |e| { assert GuardedAt(t, j - |e|); }
      }
    }
  }

  lemma {:induction false} GuardedParts(st: Scan, part: string, s: string)
    requires Guarded(part + s)
    ensures forall i | 0 <= i < |SplitFrom(st, part, s)| :: Guarded(SplitFrom(st, part, s)[i])
    decreases |s|
  {
    var whole := part + s;
    if s == [] {
      assert whole == part;
    } else if Breaks(st, s[0]) {
      forall j | 0 <= j < |part| - 1 ensures GuardedAt(part, j) {
        assert GuardedAt(whole, j);
      }
      var rest := "" + s[1..];
      forall j | 0 <= j < |rest| - 1 ensures GuardedAt(rest, j) {
        assert GuardedAt(whole, |part| + 1 + j) && whole[|part|] == ',';
      }
      GuardedParts(Advance(st, s[0]), "", s[1..]);
    } else {
      assert part + [s[0]] + s[1..] == whole;
      GuardedParts(Advance(st, s[0]), part + [s[0]], s[1..]);
    }
  }

  /** A guarded string that begins with a quote after anything but a backslash is that quote. */
  lemma GuardedQuote(s: string, k: string, w: string)
    requires Guarded(s) && s == k + w && k != [] && k[|k| - 1] != '\\' && w != [] && w[0] == '"'
    ensures w == "\""
  {
    assert s[|k| - 1] == k[|k| - 1] && s[|k|] == w[0];
    assert |w| > 1 ==> GuardedAt(s, |k|);
  }

  // ---------- splitting ----------

  lemma {:induction false} SplitConcat(st: Scan, part: string, s: string, t: string)
    ensures var ps := SplitFrom(st, part, s);
            SplitFrom(st, part, s + t) == ps[..|ps| - 1] + SplitFrom(After(st, s), ps[|ps| - 1], t)
    decreases |s|
  {
    if s == [] {
      assert s + t == t;
    } else {
      assert (s + t)[1..] == s[1..] + t;
      if Breaks(st, s[0]) {
        SplitConcat(Advance(st, s[0]), "", s[1..], t);
      } else {
        SplitConcat(Advance(st, s[0]), part + [s[0]], s[1..], t);
      }
    }
  }

  const OPAQUE := ", opaque=\""

  lemma {:induction false} QuotedPlain(s: string)
    requires '"' !in s && '\\' !in s
    ensures After(QUOTED, s) == QUOTED && NoBreak(QUOTED, s)
  {
    if s != [] {
      assert s[0] in s;
      QuotedPlain(s[1..]);
    }
  }

  /** Inside quotes the start of the next field closes them. */
  lemma OpaqueCloses(st: Scan)
    requires st.inQuotes
    ensures After(st, OPAQUE) == START && NoBreak(st, OPAQUE)
  {
    hide After, NoBreak;
    var name := " opaque=";
    assert '"' !in name && '\\' !in name;
    CommaCloses(st, name);
    assert OPAQUE == [','] + (name + ['"']);
  }

  lemma CommaCloses(st: Scan, name: string)
    requires st.inQuotes && '"' !in name && '\\' !in name
    ensures var t := [','] + (name + ['"']); After(st, t) == START && NoBreak(st, t)
  {
    hide After, NoBreak;
    QuotedPlain(name);
    OneStep(st, ',');
    OneStep(QUOTED, '"');
    AfterConcat(QUOTED, name, ['"']);
    AfterConcat(st, [','], name + ['"']);
  }

  lemma OneStep(st: Scan, c: char)
    ensures After(st, [c]) == Advance(st, c) && NoBreak(st, [c]) == !Breaks(st, c)
  {
    assert [c][1..] == [];
  }

  /** After a text that leaves a quote open, the next field is swallowed up to its own quote. */
  lemma SplitOpen(s: string, o: string)
    requires !Balanced(s)
    ensures var ps, qs := Split(s), Split(Closed(o));
            Split(s + (OPAQUE + Closed(o))) == ps[..|ps| - 1] + ([ps[|ps| - 1] + OPAQUE + qs[0]] + qs[1..])
  {
    hide SplitFrom, After, NoBreak, Closed;
    var ps := Split(s);
    var st, last := After(START, s), ps[|ps| - 1];
    SplitConcat(START, "", s, OPAQUE + Closed(o));
    AfterIsScan(START, s);
    OpaqueCloses(st);
    SplitCarry(st, last, OPAQUE, Closed(o));
    SplitPrefix(START, last + OPAQUE, "", Closed(o));
    assert last + OPAQUE + "" == last + OPAQUE;
  }

  lemma SplitSingle(s: string)
    requires NoBreak(START, s)
    ensures Split(s) == [s]
  {
    hide NoBreak, After;
    SplitCarry(START, "", s, "");
    assert s + "" == s && "" + s == s;
  }

  // ---------- parts that cannot bring the algorithm back ----------

  predicate HasLower(s: string) {
    'o' in s
  }

  lemma UpperNoO(s: string)
    ensures !HasLower(Upper(s))
  {
  }

  /** Unescaping ends inside `u`, or runs on into what follows it. */
  lemma {:induction false} UnescapeRuns(u: string, t: string)
    requires t != [] && HasLower(Unescape(t)) && HasLower(Unescape(t[1..]))
    ensures var v := Unescape(u + t); HasLower(v) || Weight(v) <= Weight(u)
  {
    hide HasLower;
    var s := u + t;
    if u == [] {
      assert s == t;
    } else if u[0] == '"' {
      assert s[0] == '"';
    } else if u[0] != '\\' {
      assert s[0] == u[0] && s[1..] == u[1..] + t;
      UnescapeRuns(u[1..], t);
      OneMore(u[0], Unescape(s[1..]));
    } else if |u| == 1 {
      assert s[0] == '\\' && s[1] == t[0] && s[2..] == t[1..];
      OneMore(t[0], Unescape(t[1..]));
    } else {
      assert s[0] == '\\' && s[1] == u[1] && s[2..] == u[2..] + t;
      UnescapeRuns(u[2..], t);
      OneMore(u[1], Unescape(s[2..]));
      assert u[1..][1..] == u[2..];
    }
  }

  lemma OneMore(c: char, v: string)
    ensures HasLower(v) ==> HasLower([c] + v)
    ensures Weight([c] + v) == (if c == '"' || c == '\\' then 0 else 1) + Weight(v)
  {
    assert ([c] + v)[1..] == v;
  }

  lemma OpaqueUnescapes(y: string)
    ensures HasLower(Unescape(OPAQUE + y)) && HasLower(Unescape((OPAQUE + y)[1..]))
  {
    var t := OPAQUE + y;
    var u := t[1..];
    assert t[0] == ',' && u[0] == ' ' && u[1..][0] == 'o';
    assert Unescape(u[1..]) == ['o'] + Unescape(u[1..][1..]);
    hide Unescape;
    assert HasLower(Unescape(u[1..])) by { assert Unescape(u[1..])[0] == 'o'; }
    UnescapePlain(u);
    UnescapePlain(t);
    OneMore(' ', Unescape(u[1..]));
    OneMore(',', Unescape(u));
  }

  lemma UnescapePlain(s: string)
    requires s != [] && s[0] != '"' && s[0] != '\\'
    ensures Unescape(s) == [s[0]] + Unescape(s[1..])
  {
  }

  /** Whitespace is all that trimming removes. */
  lemma TrimAround(x: string, y: string)
    ensures Trim(x + (OPAQUE + y)) == TrimStart(x) + (OPAQUE + TrimEnd(y))
  {
    hide IsWhitespace, TrimEnd, TrimStart;
    MarksVisible();
    TrimStartBefore(x, OPAQUE + y);
    TrimEndAfter(TrimStart(x) + OPAQUE, y);
    Regroup(TrimStart(x), OPAQUE, y);
    Regroup(TrimStart(x), OPAQUE, TrimEnd(y));
  }

  lemma Regroup(a: string, b: string, c: string)
    ensures a + (b + c) == a + b + c
  {
  }

  lemma MarksVisible()
    ensures !IsWhitespace(',') && !IsWhitespace('"') && !IsWhitespace('=') && !IsWhitespace('\\') && !IsWhitespace('e')
  {
  }

  lemma {:induction false} TrimStartBefore(x: string, t: string)
    requires t != [] && !IsWhitespace(t[0])
    ensures TrimStart(x + t) == TrimStart(x) + t
  {
    hide IsWhitespace;
    if x == [] {
      assert x + t == t;
    } else if IsWhitespace(x[0]) {
      assert (x + t)[1..] == x[1..] + t;
      TrimStartBefore(x[1..], t);
    }
  }

  lemma {:induction false} TrimEndAfter(s: string, v: string)
    requires s != [] && !IsWhitespace(s[|s| - 1])
    ensures TrimEnd(s + v) == s + TrimEnd(v)
    decreases |v|
  {
    hide IsWhitespace;
    if v == [] {
      assert s + v == s;
    } else if IsWhitespace(v[|v| - 1]) {
      assert (s + v)[..|s + v| - 1] == s + v[..|v| - 1];
      TrimEndAfter(s, v[..|v| - 1]);
    }
  }

  /** A part that swallowed the start of the next field: as an algorithm it reads lower-case
      letters, or no more than it had of its own. */
  lemma SwallowedPart(x: string, y: string, v: string)
    requires ParsePart(x + (OPAQUE + y)) == Some(("algorithm", v))
    ensures HasLower(v) || Weight(v) <= Weight(x)
  {
    hide Weight, Unquote, Trim, TrimStart, TrimEnd, IsWhitespace, HasLower;
    var x', y' := TrimStart(x), TrimEnd(y);
    TrimAround(x, y);
    var p := x' + (OPAQUE + y');
    var i := IndexOf(p, '=');
    assert p[|x'| + 8] == '=';
    if i < |x'| {
      assert p[i + 1..] == x'[i + 1..] + (OPAQUE + y');
      SwallowedValue(x'[i + 1..], y');
      WeightSlice(x', i + 1, |x'|);
      assert x'[i + 1..|x'|] == x'[i + 1..];
      WeightTrimStart(x);
    } else {
      SwallowedKey(p, x', y', i);
    }
  }

  lemma WeightTrimStart(x: string)
    ensures Weight(TrimStart(x)) <= Weight(x)
  {
    hide Weight;
    var t := TrimStart(x);
    TrimStartSuffix(x);
    WeightSlice(x, |x| - |t|, |x|);
    assert x[|x| - |t|..|x|] == t;
  }

  /** With its own `=` missing, the key ends like `opaque`. */
  lemma SwallowedKey(p: string, x: string, y: string, i: nat)
    requires p == x + (OPAQUE + y) && i == IndexOf(p, '=') && |x| <= i < |p|
    ensures Lower(Trim(p[..i])) != "algorithm"
  {
    hide Trim, IsWhitespace, IndexOf;
    assert OPAQUE[8] == '=' && OPAQUE[7] == 'e';
    assert p[|x| + 8] == OPAQUE[8] && p[|x| + 7] == OPAQUE[7];
    assert i == |x| + 8 by { OpaqueIndex(p, x, y, i); }
    assert p[..i] == p[..i - 1] + ['e'];
    EndsLikeOpaque(p[..i - 1]);
  }

  lemma OpaqueIndex(p: string, x: string, y: string, i: nat)
    requires p == x + (OPAQUE + y) && i == IndexOf(p, '=') && |x| <= i < |p|
    ensures i == |x| + 8
  {
    assert p[|x| + 8] == '=';
    assert p[i] == '=';
    assert forall j | |x| <= j < |x| + 8 :: p[j] == OPAQUE[j - |x|];
  }

  lemma EndsLikeOpaque(head: string)
    ensures Lower(Trim(head + ['e'])) != "algorithm"
  {
    hide Trim, IsWhitespace;
    assert !IsWhitespace('e') by { MarksVisible(); }
    TrimKeepsLast(head, 'e');
    var t := Trim(head + ['e']);
    assert Lower(t)[|t| - 1] == 'e';
    assert "algorithm"[8] == 'm';
  }

  lemma TrimKeepsLast(s: string, c: char)
    requires !IsWhitespace(c)
    ensures var t := Trim(s + [c]); t != [] && t[|t| - 1] == c
  {
    hide IsWhitespace;
    TrimStartBefore(s, [c]);
    var t := TrimStart(s) + [c];
    assert t[|t| - 1] == c;
  }

  lemma SwallowedValue(w: string, y: string)
    ensures var v := Unquote(Trim(w + (OPAQUE + y))); HasLower(v) || Weight(v) <= Weight(w)
  {
    hide Weight, Trim, TrimStart, TrimEnd, Unescape;
    TrimAround(w, y);
    WeightTrimStart(w);
    var w', y' := TrimStart(w), TrimEnd(y);
    var t := w' + (OPAQUE + y');
    if w' != [] && w'[0] == '"' {
      assert t[1..] == w'[1..] + (OPAQUE + y');
      OpaqueUnescapes(y');
      UnescapeRuns(w'[1..], OPAQUE + y');
      WeightSlice(w', 1, |w'|);
      assert w'[1..|w'|] == w'[1..];
    } else {
      assert t[|w'| + 2] == 'o';
    }
  }

  /** Outside quotes, trimming changes nothing about the scan. */
  lemma {:induction false} NoBreakTrimStart(s: string)
    requires NoBreak(START, s)
    ensures NoBreak(START, TrimStart(s))
  {
    if s != [] && IsWhitespace(s[0]) { NoBreakTrimStart(s[1..]); }
  }

  lemma NoBreakTrim(s: string)
    requires NoBreak(START, s)
    ensures NoBreak(START, Trim(s))
  {
    hide NoBreak, After, TrimStart, TrimEnd, IsWhitespace;
    NoBreakTrimStart(s);
    var t := TrimStart(s);
    var u := TrimEnd(t);
    TrimEndPrefix(t);
    assert t == u + t[|u|..];
    AfterConcat(START, u, t[|u|..]);
  }

  /** A key that reads `algorithm` has no comma, quote or backslash. */
  lemma AlgorithmKey(k: string)
    requires Lower(Trim(k)) == "algorithm"
    ensures ',' !in k && '"' !in k && '\\' !in k
  {
    hide Trim, IsWhitespace;
    MarksVisible();
    forall c | c in k ensures IsWhitespace(c) || 'a' <= LowerChar(c) <= 'z' {
      if !IsWhitespace(c) {
        TrimKeeps(k, c);
        var t := Trim(k);
        var j :| 0 <= j < |t| && t[j] == c;
        assert Lower(t)[j] == LowerChar(c);
        LettersOf(j);
      }
    }
  }

  lemma LettersOf(j: nat)
    requires j < 9
    ensures 'a' <= "algorithm"[j] <= 'z'
  {
  }

  lemma TrimKeeps(s: string, c: char)
    requires c in s && !IsWhitespace(c)
    ensures c in Trim(s)
  {
    hide IsWhitespace;
    TrimStartKeeps(s, c);
    TrimEndKeeps(TrimStart(s), c);
  }

  lemma {:induction false} TrimStartKeeps(s: string, c: char)
    requires c in s && !IsWhitespace(c)
    ensures c in TrimStart(s)
  {
    hide IsWhitespace;
    if IsWhitespace(s[0]) { TrimStartKeeps(s[1..], c); }
  }

  lemma {:induction false} TrimEndKeeps(s: string, c: char)
    requires c in s && !IsWhitespace(c)
    ensures c in TrimEnd(s)
  {
    hide IsWhitespace;
    if IsWhitespace(s[|s| - 1]) { TrimEndKeeps(s[..|s| - 1], c); }
  }

  /** A guarded part without a breaking comma brings back no algorithm with one. */
  lemma GuardedPart(q: string, v: string)
    requires Guarded(q) && NoBreak(START, q) && ParsePart(q) == Some(("algorithm", v))
    ensures NoBreak(START, v)
  {
    hide NoBreak, After, Trim, Guarded, Lower, IndexOf, Unescape;
    var p := Trim(q);
    var i := IndexOf(p, '=');
    NoBreakTrim(q);
    GuardedTrim(q);
    AlgorithmKey(p[..i]);
    var w := p[i + 1..];
    assert p == p[..i + 1] + w && p[..i + 1] == p[..i] + "=";
    PlainScan(p[..i + 1]);
    AfterConcat(START, p[..i + 1], w);
    NoBreakTrim(w);
    if Trim(w) != [] && Trim(w)[0] == '"' {
      QuotedRest(p, i);
      assert "\""[1..] == "";
      NothingQuoted();
    }
  }

  lemma NothingQuoted()
    ensures Unescape("") == "" && NoBreak(START, "")
  {
  }

  lemma QuotedRest(p: string, i: nat)
    requires Guarded(p) && i < |p| && p[i] == '=' && Trim(p[i + 1..]) != [] && Trim(p[i + 1..])[0] == '"'
    ensures Trim(p[i + 1..]) == "\""
  {
    hide Guarded, IsWhitespace, TrimEnd;
    var w := p[i + 1..];
    var t := TrimStart(w);
    var n := |w| - |t|;
    TrimStartSuffix(w);
    assert t[0] == '"' by { TrimHead(t); }
    assert !IsWhitespace('\\') by { MarksVisible(); }
    TrimStartBlanks(w);
    var k := p[..i + 1 + n];
    assert p == k + t;
    assert k[|k| - 1] == if n == 0 then '=' else w[n - 1];
    GuardedQuote(p, k, t);
    assert !IsWhitespace('"') by { MarksVisible(); }
    TrimEndVisible(t);
  }

  lemma TrimEndVisible(t: string)
    requires t == [] || !IsWhitespace(t[|t| - 1])
    ensures TrimEnd(t) == t
  {
  }

  lemma TrimHead(t: string)
    requires TrimEnd(t) != []
    ensures t != [] && t[0] == TrimEnd(t)[0]
  {
    TrimEndPrefix(t);
  }

  lemma {:induction false} TrimStartBlanks(s: string)
    ensures forall j | 0 <= j < |s| - |TrimStart(s)| :: IsWhitespace(s[j])
  {
    hide IsWhitespace;
    if s != [] && IsWhitespace(s[0]) {
      TrimStartBlanks(s[1..]);
      forall j | 0 <= j < |s| - |TrimStart(s)| ensures IsWhitespace(s[j]) {
        if j > 0 { assert s[j] == s[1..][j - 1]; }
      }
    }
  }

  lemma GuardedTrim(q: string)
    requires Guarded(q)
    ensures Guarded(Trim(q))
  {
    hide IsWhitespace;
    var t := TrimStart(q);
    var n := |q| - |t|;
    TrimStartSuffix(q);
    TrimEndPrefix(t);
    TrimStartBlanks(q);
    assert !IsWhitespace('\\') by { MarksVisible(); }
    var p := TrimEnd(t);
    forall j | 0 <= j < |p| - 1 ensures GuardedAt(p, j) {
      assert GuardedAt(q, n + j);
    }
  }

  // ---------- what comes after the lead fields ----------

  ghost predicate NeverBrings(parts: seq<string>, k: string, v: string) {
    forall i | 0 <= i < |parts| :: ParsePart(parts[i]) != Some((k, v))
  }

  lemma NeverConcat(ps: seq<string>, qs: seq<string>, k: string, v: string)
    requires NeverBrings(ps, k, v) && NeverBrings(qs, k, v)
    ensures NeverBrings(ps + qs, k, v)
  {
    hide ParsePart;
  }

  function AlgorithmField(a: string): (s: string) {
    [' '] + Field("algorithm", a)
  }

  lemma AlgorithmFieldScan(a: string)
    ensures After(START, AlgorithmField(a)) == After(START, a)
    ensures NoBreak(START, AlgorithmField(a)) <==> NoBreak(START, a)
  {
    KeysAndTokens();
    BareKeys();
    PlainScan([' ']);
    hide After, NoBreak, Field, IsKey, IsBare;
    FieldScan("algorithm", a);
    AfterConcat(START, [' '], Field("algorithm", a));
  }

  lemma AlgorithmFieldParse(a: string)
    ensures ParsePart(AlgorithmField(a)) == Some(("algorithm", Unquote(Trim(a))))
  {
    KeysAndTokens();
    BareKeys();
    hide ParsePart, Field, IsKey, IsBare, Unquote, Trim;
    ParseField("algorithm", a);
  }

  lemma OpaqueField(o: string)
    ensures OPAQUE + Closed(o) == "," + ([' '] + Field("opaque", o)) == Rest([("opaque", o)])
  {
    hide Field, Closed, Join, Written;
    OpaqueWritten(o);
    JoinWritten([("opaque", o)]);
    assert [("opaque", o)][1..] == [];
    var c := Closed(o);
    assert ", opaque=\"" + c == "," + ([' '] + ("opaque=\"" + c));
    assert ", " + ("opaque=\"" + c + "") == ", opaque=\"" + c;
  }

  lemma OpaqueWritten(o: string)
    ensures Field("opaque", o) == "opaque=\"" + Closed(o)
  {
    hide Escape;
    BareKeys();
    var e := Escape(o);
    assert "opaque" + "=\"" + e + "\"" == "opaque=\"" + (e + "\"");
  }

  lemma OpaqueFieldReads(o: string)
    ensures Split([' '] + Field("opaque", o)) == [[' '] + Field("opaque", o)]
    ensures ParsePart([' '] + Field("opaque", o)).Some? && ParsePart([' '] + Field("opaque", o)).value.0 != "algorithm"
  {
    KeysAndTokens();
    BareKeys();
    PlainScan([' ']);
    assert "opaque" != "algorithm";
    hide After, NoBreak, Field, IsKey, IsBare, ParsePart, Split;
    FieldScan("opaque", o);
    AfterConcat(START, [' '], Field("opaque", o));
    SplitSingle([' '] + Field("opaque", o));
    ParseField("opaque", o);
  }

  /** Parts too light to hold a value do not bring it. */
  lemma LightParts(s: string, k: string, v: string)
    requires Weight(s) <= Weight(v)
    ensures NeverBrings(Split(s), k, v)
  {
    hide Weight, ParsePart, SplitFrom;
    WeightParts(START, "", s);
    NoWeight();
    forall i | 0 <= i < |Split(s)| ensures ParsePart(Split(s)[i]) != Some((k, v)) {
      WeightValue(Split(s)[i]);
    }
  }

  lemma NoWeight()
    ensures Weight("") == 0 && Weight("\"") == 0 && Weight(",") == 1
  {
    assert "\""[1..] == "" && ","[1..] == "";
  }

  lemma ClosedWeight(o: string)
    ensures Weight(Closed(o)) == Weight(o)
  {
    hide Weight, Escape;
    NoWeight();
    WeightEscape(o);
    WeightConcat(Escape(o), "\"");
  }

  /** With a quote left open, the opaque value is not among the parts. */
  lemma OpenBrings(a: string, o: string)
    requires NoBreak(START, a) && !Balanced(a)
    ensures NeverBrings(Split(AlgorithmField(a) + (OPAQUE + Closed(o))), "opaque", o)
  {
    hide NoBreak, After, Split, AlgorithmField, Closed, Weight, ParsePart, Unquote, Trim;
    var s := AlgorithmField(a);
    AlgorithmFieldScan(a);
    SplitSingle(s);
    SplitOpen(s, o);
    var qs := Split(Closed(o));
    assert [s][..0] == [];
    var first := s + OPAQUE + qs[0];
    AlgorithmFieldLonger(a, OPAQUE + qs[0]);
    assert first == s + (OPAQUE + qs[0]);
    AlgorithmFieldParse(a + (OPAQUE + qs[0]));
    assert "opaque" != "algorithm";
    ClosedWeight(o);
    LightParts(Closed(o), "opaque", o);
    assert [] + ([first] + qs[1..]) == [first] + qs[1..];
    NeverConcat([first], qs[1..], "opaque", o);
  }

  lemma AlgorithmFieldLonger(a: string, b: string)
    ensures AlgorithmField(a + b) == AlgorithmField(a) + b
  {
    BareKeys();
    assert "algorithm=" + (a + b) == "algorithm=" + a + b;
  }

  /** Where an algorithm name first exposes a comma. */
  lemma {:induction false} FirstBreak(st: Scan, a: string) returns (b: string, c: string)
    requires !NoBreak(st, a)
    ensures a == b + "," + c && NoBreak(st, b) && After(st, b) == START
    decreases |a|
  {
    if Breaks(st, a[0]) {
      b, c := "", a[1..];
      assert a == b + "," + c;
    } else {
      var b';
      b', c := FirstBreak(Advance(st, a[0]), a[1..]);
      b := [a[0]] + b';
      assert b[1..] == b';
    }
  }

  /** With an exposed comma, no part brings the whole name back. */
  lemma BrokenBrings(a: string, o: Option<string>)
    requires !NoBreak(START, a) && !HasLower(a)
    ensures NeverBrings(Split(AlgorithmField(a) + (if o.Some? then OPAQUE + Closed(o.value) else "")), "algorithm", a)
  {
    hide NoBreak, After, Split, AlgorithmField, Closed, Weight, ParsePart, Unquote, Trim, SplitFrom, HasLower;
    var b, c := FirstBreak(START, a);
    var rest := if o.Some? then OPAQUE + Closed(o.value) else "";
    var s := AlgorithmField(b);
    AlgorithmFieldLonger(b, "," + c);
    assert a == b + ("," + c);
    assert AlgorithmField(a) + rest == s + "," + (c + rest);
    AlgorithmFieldScan(b);
    SplitComma(s, c + rest);
    SplitSingle(s);
    BreakWeights(a, b, c);
    AlgorithmFieldParse(b);
    TailNever(a, c, o);
    NeverConcat([s], Split(c + rest), "algorithm", a);
  }

  lemma SplitComma(s: string, t: string)
    requires Balanced(s)
    ensures Split(s + "," + t) == Split(s) + Split(t)
  {
    hide SplitFrom, After;
    SplitAppend(START, "", s, t);
  }

  lemma BreakWeights(a: string, b: string, c: string)
    requires a == b + "," + c
    ensures Weight(c) < Weight(a) && Weight(Unquote(Trim(b))) < Weight(a)
  {
    hide Weight, Unquote, Trim;
    NoWeight();
    WeightConcat(b, ",");
    WeightConcat(b + ",", c);
    WeightTrim(b);
    WeightUnquote(Trim(b));
  }

  lemma TailNever(a: string, c: string, o: Option<string>)
    requires !NoBreak(START, a) && !HasLower(a) && Weight(c) < Weight(a)
    ensures NeverBrings(Split(c + if o.Some? then OPAQUE + Closed(o.value) else ""), "algorithm", a)
  {
    hide NoBreak, After, Split, Closed, Weight, ParsePart, HasLower, Field;
    LightParts(c, "algorithm", a);
    if o.None? {
      assert c + "" == c;
    } else if Balanced(c) {
      OpaqueField(o.value);
      var x := [' '] + Field("opaque", o.value);
      assert c + (OPAQUE + Closed(o.value)) == c + "," + x;
      SplitComma(c, x);
      OpaqueFieldReads(o.value);
      NeverConcat(Split(c), [x], "algorithm", a);
    } else {
      OpenNever(a, c, o.value);
    }
  }

  lemma OpenNever(a: string, c: string, o: string)
    requires !NoBreak(START, a) && !HasLower(a) && Weight(c) < Weight(a) && !Balanced(c)
    ensures NeverBrings(Split(c + (OPAQUE + Closed(o))), "algorithm", a)
  {
    hide NoBreak, After, Split, Closed, Weight, ParsePart, HasLower;
    var ps, qs := Split(c), Split(Closed(o));
    var last := ps[|ps| - 1];
    SplitOpen(c, o);
    LightParts(c, "algorithm", a);
    LastWeight(c);
    var swallowed := last + OPAQUE + qs[0];
    assert swallowed == last + (OPAQUE + qs[0]);
    if ParsePart(swallowed) == Some(("algorithm", a)) { SwallowedPart(last, qs[0], a); }
    ClosedNever(a, o);
    NeverConcat([swallowed], qs[1..], "algorithm", a);
    NeverConcat(ps[..|ps| - 1], [swallowed] + qs[1..], "algorithm", a);
  }

  lemma LastWeight(c: string)
    ensures Weight(Split(c)[|Split(c)| - 1]) <= Weight(c)
  {
    hide Weight, SplitFrom;
    NoWeight();
    WeightParts(START, "", c);
  }

  lemma ClosedNever(a: string, o: string)
    requires !NoBreak(START, a)
    ensures NeverBrings(Split(Closed(o)), "algorithm", a)
  {
    hide NoBreak, ParsePart, Guarded, SplitFrom;
    var qs := Split(Closed(o));
    ClosedGuarded(o);
    assert "" + Closed(o) == Closed(o);
    GuardedParts(START, "", Closed(o));
    SplitLossless(Closed(o));
    forall i | 0 <= i < |qs| ensures ParsePart(qs[i]) != Some(("algorithm", a)) {
      if ParsePart(qs[i]) == Some(("algorithm", a)) { GuardedPart(qs[i], a); }
    }
  }

  lemma ClosedGuarded(o: string)
    ensures Guarded(Closed(o))
  {
    EscapeGuarded(o);
    hide Escape;
    var e, s := Escape(o), Closed(o);
    forall j | 0 <= j < |s| - 1 ensures GuardedAt(s, j) {
      assert GuardedAt(e, j);
    }
  }

  // ---------- the header ----------

  lemma {:induction false} JoinConcat(ps: seq<string>, qs: seq<string>, sep: string)
    requires ps != [] && qs != []
    ensures Join(ps + qs, sep) == Join(ps, sep) + sep + Join(qs, sep)
  {
    assert (ps + qs)[1..] == ps[1..] + qs;
    if |ps| == 1 {
      assert ps[1..] + qs == qs;
    } else {
      JoinConcat(ps[1..], qs, sep);
    }
  }

  ghost predicate AllBalanced(fields: Fields) {
    forall i | 0 <= i < |fields| :: Balanced(Field(fields[i].0, fields[i].1))
  }

  lemma {:induction false} RestBalanced(fields: Fields)
    requires AllBalanced(fields)
    ensures Balanced(Rest(fields))
    decreases |fields|
  {
    hide After, Field, Join, Written;
    if fields == [] {
      NothingScanned();
    } else {
      RestBalanced(fields[1..]);
      JoinWritten(fields);
      var f := Field(fields[0].0, fields[0].1);
      SeparatorScan();
      AfterConcat(START, f, Rest(fields[1..]));
      AfterConcat(START, ", ", f + Rest(fields[1..]));
    }
  }

  lemma NothingScanned()
    ensures After(START, "") == START
  {
  }

  lemma SeparatorScan()
    ensures After(START, ", ") == START
  {
    assert ", "[1..] == " " && " "[1..] == "";
  }

  lemma LeadReady(hash: Hash, r: Request)
    ensures var lead := LeadFields(hash, r);
            && lead != [] && Keyed(lead) && Contained(lead) && !IsBare(lead[0].0) && AllBalanced(lead)
            && forall i | 0 <= i < |lead| :: lead[i].0 != "algorithm" && lead[i].0 != "opaque"
  {
    var lead := LeadFields(hash, r);
    LeadKeys(hash, r);
    FieldsExpected(hash, r);
    assert forall i | 0 <= i < |lead| :: HeaderFields(hash, r)[i] == lead[i];
    hide IsKey, IsBare, BareSafe, NoBreak, Balanced, Field, AlgorithmName, LeadFields;
    forall i | 0 <= i < |lead|
      ensures IsKey(lead[i].0) && ContainedAt(lead, i) && Balanced(Field(lead[i].0, lead[i].1))
    {
      assert lead[i] in HeaderFields(hash, r);
      var (k, v) := lead[i];
      FieldScan(k, v);
      ScanBalance(k, v);
      if IsBare(k) { BareSafeReads(v); }
    }
  }

  lemma LeadKeys(hash: Hash, r: Request)
    ensures var lead := LeadFields(hash, r);
            && lead != [] && !IsBare(lead[0].0)
            && forall i | 0 <= i < |lead| :: lead[i].0 != "algorithm" && lead[i].0 != "opaque"
  {
    hide NonceCount, Response, OffersAuth, IsSession, AlgorithmName;
    OtherKeys();
    BareKeys();
    assert "opaque" !in ["username", "realm", "nonce", "uri", "qop", "nc", "cnonce", "response"];
  }

  lemma LeadBalanced(hash: Hash, r: Request)
    ensures Balanced("Digest " + Join(Written(LeadFields(hash, r)), ", "))
  {
    var lead := LeadFields(hash, r);
    PlainScan("Digest ");
    hide After, NoBreak, LeadFields, Field, Written, Join, IsBare, Keyed, Contained;
    LeadReady(hash, r);
    var f := Field(lead[0].0, lead[0].1);
    JoinWritten(lead);
    RestBalanced(lead[1..]);
    AfterConcat(START, f, Rest(lead[1..]));
    AfterConcat(START, "Digest ", f + Rest(lead[1..]));
  }

  /** The text of the header from the algorithm on. */
  function EchoText(r: Request): (s: string) {
    AlgorithmField(AlgorithmName(r)) + if r.opaqueData.Some? then OPAQUE + Closed(r.opaqueData.value) else ""
  }

  lemma HeaderText(hash: Hash, r: Request)
    requires r.algorithm.Some?
    ensures Authorization(hash, r) == "Digest " + Join(Written(LeadFields(hash, r)), ", ") + "," + EchoText(r)
  {
    hide LeadFields, AlgorithmName, Closed, Field, Join;
    var lead, a := LeadFields(hash, r), AlgorithmName(r);
    var post: Fields := if r.opaqueData.Some? then [("opaque", r.opaqueData.value)] else [];
    var tail := [("algorithm", a)] + post;
    assert HeaderFields(hash, r) == lead + tail;
    assert Written(lead + tail) == Written(lead) + Written(tail);
    LeadKeys(hash, r);
    JoinConcat(Written(lead), Written(tail), ", ");
    JoinWritten(tail);
    assert tail[1..] == post;
    if r.opaqueData.Some? { OpaqueField(r.opaqueData.value); }
    var x := Join(Written(lead), ", ");
    var y := Field("algorithm", a) + Rest(post);
    assert ", " + y == "," + EchoText(r);
    assert "Digest " + (x + ", " + y) == "Digest " + x + "," + EchoText(r);
  }

  /** What no part from the algorithm on brings, a server does not find. */
  lemma NotFound(hash: Hash, r: Request, k: string, v: string)
    requires r.algorithm.Some? && (k == "algorithm" || k == "opaque")
    requires NeverBrings(Split(EchoText(r)), k, v)
    ensures var cs := Parse(Authorization(hash, r));
            && cs != [] && !(k in cs[0].params && cs[0].params[k] == v)
            && FindDigest(cs) == Some(cs[0].params)
  {
    var lead := LeadFields(hash, r);
    var header := "Digest " + Join(Written(lead), ", ");
    LeadReady(hash, r);
    hide LeadFields, EchoText, Split, Written, Join, Contained, Keyed, IsBare, Authorization, ParsePart, Group, Read,
      Balanced;
    HeaderText(hash, r);
    LeadBalanced(hash, r);
    SplitComma(header, EchoText(r));
    GroupFields(lead, Split(EchoText(r)));
    assert forall i | 0 <= i < |lead| :: ReadAll(lead)[i].0 == lead[i].0;
    InsertAllLacks(map[], ReadAll(lead), k);
    var c := Challenge("Digest", InsertAll(map[], ReadAll(lead)));
    GroupLacks(c, Split(EchoText(r)), k, v);
    assert Lower("Digest") == "digest";
  }

  lemma EchoedParams(hash: Hash, r: Request, name: string)
    ensures var params := HeaderParamsAs(hash, r, name);
            && (r.algorithm.Some? ==> "algorithm" in params && params["algorithm"] == name)
            && (r.opaqueData.Some? ==> "opaque" in params && params["opaque"] == r.opaqueData.value)
  {
    hide QopParams, Response;
    assert "opaque" != "algorithm";
  }

  /** The written header reads back as exactly what was written if and only if the algorithm the
      server named, upper-cased, has no outer blanks, does not begin with a quote, exposes no
      comma, and closes the quotes it opens (which no longer matters when it comes last). */
  lemma RoundTripExact(hash: Hash, r: Request)
    ensures Parse(Authorization(hash, r)) == [Challenge("Digest", HeaderParams(hash, r))] <==> Echoable(r)
    ensures FindDigest(Parse(Authorization(hash, r))) == Some(HeaderParams(hash, r)) <==> Echoable(r)
  {
    if Echoable(r) {
      RoundTrip(hash, r);
    } else {
      hide Authorization, Parse, HeaderParamsAs, NoBreak, Balanced, AlgorithmName, ReadsBack, Closed, Split;
      EchoedParams(hash, r, AlgorithmName(r));
      if AlgorithmContained(r) {
        ContainedLost(hash, r);
      } else if NoBreak(START, AlgorithmName(r)) {
        OpenBrings(AlgorithmName(r), r.opaqueData.value);
        NotFound(hash, r, "opaque", r.opaqueData.value);
      } else {
        NameUpper(r);
        BrokenBrings(AlgorithmName(r), r.opaqueData);
        NotFound(hash, r, "algorithm", AlgorithmName(r));
      }
    }
  }

  lemma NameUpper(r: Request)
    requires r.algorithm.Some?
    ensures !HasLower(AlgorithmName(r))
  {
    hide HasLower;
    UpperNoO(r.algorithm.value);
  }

  lemma ContainedLost(hash: Hash, r: Request)
    requires AlgorithmContained(r) && r.algorithm.Some? && !ReadsBack(AlgorithmName(r))
    ensures Parse(Authorization(hash, r)) != [Challenge("Digest", HeaderParams(hash, r))]
    ensures FindDigest(Parse(Authorization(hash, r))) != Some(HeaderParams(hash, r))
  {
    hide Authorization, Parse, HeaderParamsAs, NoBreak, Balanced, AlgorithmName, ReadsBack, Unquote, Trim;
    var name := Unquote(Trim(AlgorithmName(r)));
    ParseContained(hash, r);
    ReadsBackExact(AlgorithmName(r));
    EchoedParams(hash, r, AlgorithmName(r));
    EchoedParams(hash, r, name);
    assert Lower("Digest") == "digest";
  }

  /** A name with a comma and no quotes is not echoed faithfully. */
  lemma CommaLost(hash: Hash, r: Request)
    requires r.algorithm.Some? && ',' in r.algorithm.value && '"' !in r.algorithm.value
    ensures FindDigest(Parse(Authorization(hash, r))) != Some(HeaderParams(hash, r))
  {
    hide Authorization, Parse, HeaderParams;
    var s := r.algorithm.value;
    var i :| 0 <= i < |s| && s[i] == ',';
    assert Upper(s)[i] == ',';
    assert '"' !in Upper(s);
    CommaBreaks(Upper(s), i);
    RoundTripExact(hash, r);
  }

  lemma {:induction false} CommaBreaks(a: string, i: nat)
    requires i < |a| && a[i] == ',' && '"' !in a
    ensures !NoBreak(START, a)
  {
    assert a[0] in a;
    if i > 0 && a[0] != ',' { CommaBreaks(a[1..], i - 1); }
  }
}
