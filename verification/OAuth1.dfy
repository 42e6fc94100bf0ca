/** The OAuth 1 signature base string (section 3.4.1 of RFC 5849). */
module OAuth1 {
  import opened Text
  import opened PairOrder
  import Utf8
  import QueryString

  type Byte = Utf8.Byte

  /** `A-Z a-z 0-9 - . _ ~` */
  predicate Unreserved(b: int) {
    || ('A' as int <= b <= 'Z' as int) || ('a' as int <= b <= 'z' as int) || ('0' as int <= b <= '9' as int)
    || b == '-' as int || b == '.' as int || b == '_' as int || b == '~' as int
  }

  function HexDigit(n: int): (c: char)
    requires 0 <= n < 16
  {
    "0123456789ABCDEF"[n]
  }

  function EncodeByte(b: Byte): (s: string) {
    if Unreserved(b) then [b as char] else ['%', HexDigit(b / 16), HexDigit(b % 16)]
  }

  function EncodeBytes(bs: seq<Byte>): (s: string) {
    if bs == [] then "" else EncodeByte(bs[0]) + EncodeBytes(bs[1..])
  }

  function PercentEncode(s: string): (t: string) {
    EncodeBytes(Utf8.OfString(s))
  }

  // ---------- decoding ----------

  function HexValue(c: char): (n: Option<int>) {
    if '0' <= c <= '9' then Some(c as int - '0' as int)
    else if 'A' <= c <= 'F' then Some(c as int - 'A' as int + 10)
    else if 'a' <= c <= 'f' then Some(c as int - 'a' as int + 10)
    else None
  }

  function DecodeBytes(t: string): (bs: seq<int>) {
    if t == "" then []
    else if t[0] == '%' && |t| >= 3 && HexValue(t[1]).Some? && HexValue(t[2]).Some? then
      [16 * HexValue(t[1]).value + HexValue(t[2]).value] + DecodeBytes(t[3..])
    else [t[0] as int] + DecodeBytes(t[1..])
  }

  lemma HexRoundTrip(n: int)
    requires 0 <= n < 16
    ensures HexValue(HexDigit(n)) == Some(n)
    ensures HexDigit(n) != '&' && HexDigit(n) != '='
  {
  }

  lemma DecodePlain(c: char, rest: string)
    requires c != '%'
    ensures DecodeBytes([c] + rest) == [c as int] + DecodeBytes(rest)
  {
    assert ([c] + rest)[1..] == rest;
  }

  lemma DecodeEscape(x: char, y: char, rest: string)
    requires HexValue(x).Some? && HexValue(y).Some?
    ensures DecodeBytes(['%', x, y] + rest) == [16 * HexValue(x).value + HexValue(y).value] + DecodeBytes(rest)
  {
    hide HexValue;
    var t := ['%', x, y] + rest;
    assert t[0] == '%' && t[1] == x && t[2] == y && t[3..] == rest;
  }

  lemma DecodeByte(b: Byte, rest: string)
    ensures DecodeBytes(EncodeByte(b) + rest) == [b] + DecodeBytes(rest)
    ensures '&' !in EncodeByte(b) && '=' !in EncodeByte(b)
  {
    hide DecodeBytes;
    if Unreserved(b) {
      DecodePlain(b as char, rest);
    } else {
      HexRoundTrip(b / 16);
      HexRoundTrip(b % 16);
      hide HexDigit, HexValue, Unreserved;
      DecodeEscape(HexDigit(b / 16), HexDigit(b % 16), rest);
    }
  }

  lemma {:induction false} DecodeEncode(bs: seq<Byte>)
    ensures DecodeBytes(EncodeBytes(bs)) == bs
    ensures '&' !in EncodeBytes(bs) && '=' !in EncodeBytes(bs)
  {
    hide DecodeBytes, EncodeByte;
    if bs == [] {
      NoBytes();
    } else {
      DecodeEncode(bs[1..]);
      DecodeByte(bs[0], EncodeBytes(bs[1..]));
      assert bs == [bs[0]] + bs[1..];
    }
  }

  lemma NoBytes()
    ensures DecodeBytes("") == []
  {
  }

  /** Percent-encoding loses nothing and leaves no separator in its output. */
  lemma EncodeInjective(s: string, t: string)
    ensures PercentEncode(s) == PercentEncode(t) <==> s == t
    ensures '&' !in PercentEncode(s) && '=' !in PercentEncode(s)
  {
    DecodeEncode(Utf8.OfString(s));
    DecodeEncode(Utf8.OfString(t));
    if PercentEncode(s) == PercentEncode(t) { Utf8.OfStringInjective(s, t); }
  }

  // ---------- the base string ----------

  function EncodePair(p: Pair): (q: Pair) {
    (PercentEncode(p.0), PercentEncode(p.1))
  }

  function EncodePairs(ps: seq<Pair>): (qs: seq<Pair>)
    ensures |qs| == |ps|
  {
    seq(|ps|, i requires 0 <= i < |ps| => EncodePair(ps[i]))
  }

  function ParamString(params: seq<Pair>): (s: string) {
    QueryString.Print(Sort(EncodePairs(params)))
  }

  /** `upper` is the Unicode upper-casing of the method. */
  function BaseString(upper: string -> string, httpMethod: string, baseUri: string, params: seq<Pair>): (s: string) {
    upper(httpMethod) + "&" + PercentEncode(baseUri) + "&" + PercentEncode(ParamString(params))
  }

  lemma EncodePairInjective(p: Pair, q: Pair)
    ensures EncodePair(p) == EncodePair(q) <==> p == q
    ensures QueryString.Unambiguous(EncodePair(p))
  {
    hide PercentEncode;
    EncodeInjective(p.0, q.0);
    EncodeInjective(p.1, q.1);
  }

  /** An encoded pair occurs as often as the pair itself. */
  lemma {:induction false} EncodedCount(ps: seq<Pair>, p: Pair)
    ensures multiset(EncodePairs(ps))[EncodePair(p)] == multiset(ps)[p]
  {
    hide EncodePair;
    if ps != [] {
      EncodedCount(ps[1..], p);
      EncodePairInjective(p, ps[0]);
      assert ps == [ps[0]] + ps[1..];
      assert EncodePairs(ps) == [EncodePair(ps[0])] + EncodePairs(ps[1..]);
    }
  }

  lemma {:induction false} EncodedSource(ps: seq<Pair>, q: Pair)
    requires q in EncodePairs(ps)
    ensures exists p :: p in ps && EncodePair(p) == q
  {
    hide EncodePair;
    var i :| 0 <= i < |ps| && EncodePairs(ps)[i] == q;
    assert ps[i] in ps;
  }

  lemma EncodedMultisets(ps: seq<Pair>, qs: seq<Pair>)
    ensures multiset(EncodePairs(ps)) == multiset(EncodePairs(qs)) <==> multiset(ps) == multiset(qs)
  {
    if multiset(EncodePairs(ps)) == multiset(EncodePairs(qs)) {
      forall p ensures multiset(ps)[p] == multiset(qs)[p] {
        EncodedCount(ps, p);
        EncodedCount(qs, p);
      }
    }
    if multiset(ps) == multiset(qs) {
      forall e ensures multiset(EncodePairs(ps))[e] == multiset(EncodePairs(qs))[e] {
        EncodedOften(ps, qs, e);
      }
    }
  }

  lemma EncodedOften(ps: seq<Pair>, qs: seq<Pair>, e: Pair)
    requires multiset(ps) == multiset(qs)
    ensures multiset(EncodePairs(ps))[e] == multiset(EncodePairs(qs))[e]
  {
    if e in EncodePairs(ps) || e in EncodePairs(qs) {
      if e in EncodePairs(ps) { EncodedSource(ps, e); } else { EncodedSource(qs, e); }
      var p :| EncodePair(p) == e;
      EncodedCount(ps, p);
      EncodedCount(qs, p);
    }
  }

  lemma ParamStringExact(ps: seq<Pair>, qs: seq<Pair>)
    ensures ParamString(ps) == ParamString(qs) <==> multiset(ps) == multiset(qs)
  {
    var es, fs := EncodePairs(ps), EncodePairs(qs);
    SortIsMultiset(es, fs);
    EncodedMultisets(ps, qs);
    if ParamString(ps) == ParamString(qs) {
      SortedEncodedClean(ps);
      SortedEncodedClean(qs);
      QueryString.PrintInjective(Sort(es), Sort(fs));
    }
  }

  lemma SortedEncodedClean(ps: seq<Pair>)
    ensures forall q | q in Sort(EncodePairs(ps)) :: QueryString.Unambiguous(q)
  {
    hide EncodePair, EncodePairs, Sort;
    SortSorts(EncodePairs(ps));
    forall q | q in Sort(EncodePairs(ps)) ensures QueryString.Unambiguous(q) {
      assert q in multiset(Sort(EncodePairs(ps)));
      EncodedSource(ps, q);
      var p :| EncodePair(p) == q;
      EncodePairInjective(p, p);
    }
  }

  /** Two base strings are equal exactly when the upper-cased methods, the base URIs and the
      multisets of parameters are: the string ignores parameter order and confuses no two requests. */
  lemma BaseStringExact(upper: string -> string, m1: string, u1: string, ps: seq<Pair>,
                        m2: string, u2: string, qs: seq<Pair>)
    ensures BaseString(upper, m1, u1, ps) == BaseString(upper, m2, u2, qs) <==>
            upper(m1) == upper(m2) && u1 == u2 && multiset(ps) == multiset(qs)
  {
    ParamStringExact(ps, qs);
    EncodeInjective(ParamString(ps), ParamString(qs));
    EncodeInjective(ParamString(qs), ParamString(ps));
    EncodeInjective(u1, u2);
    EncodeInjective(u2, u1);
    hide PercentEncode, ParamString;
    if BaseString(upper, m1, u1, ps) == BaseString(upper, m2, u2, qs) {
      LastSeparator('&', upper(m1) + "&" + PercentEncode(u1), PercentEncode(ParamString(ps)),
                    upper(m2) + "&" + PercentEncode(u2), PercentEncode(ParamString(qs)));
      LastSeparator('&', upper(m1), PercentEncode(u1), upper(m2), PercentEncode(u2));
    }
  }

  // ---------- what the base string says ----------

  predicate UpperHex(c: char) {
    c in "0123456789ABCDEF"
  }

  /** Letters, digits, `-`, `.`, `_` and `~` are written as themselves, and every other byte as a
      `%` and two upper-case digits. */
  lemma EncodeOne(b: Byte)
    ensures var e, c := EncodeByte(b), b as char;
            if 'A' <= c <= 'Z' || 'a' <= c <= 'z' || '0' <= c <= '9' || c in "-._~" then e == [c]
            else |e| == 3 && e[0] == '%' && UpperHex(e[1]) && UpperHex(e[2]) && DecodeBytes(e) == [b]
  {
    assert [b][1..] == [] && EncodeBytes([b]) == EncodeByte(b) by { assert EncodeByte(b) + "" == EncodeByte(b); }
    DecodeEncode([b]);
    hide DecodeBytes;
  }

  lemma {:induction false} SortedSource(qs: seq<Pair>, params: seq<Pair>) returns (ps: seq<Pair>)
    requires forall q | q in qs :: q in EncodePairs(params)
    ensures EncodePairs(ps) == qs
  {
    hide EncodePair, PercentEncode;
    ps := [];
    if qs != [] {
      assert qs[0] in qs;
      EncodedSource(params, qs[0]);
      var p :| EncodePair(p) == qs[0];
      var rest := SortedSource(qs[1..], params);
      ps := [p] + rest;
      assert EncodePairs(ps) == [EncodePair(p)] + EncodePairs(rest);
    }
  }

  /** The parameters in the order of their encoded names and then values. */
  lemma InEncodedOrder(params: seq<Pair>) returns (ps: seq<Pair>)
    ensures multiset(ps) == multiset(params) && EncodePairs(ps) == Sort(EncodePairs(params))
    ensures forall i, j | 0 <= i < j < |ps| :: PairsAscend(EncodePair(ps[i]), EncodePair(ps[j]))
  {
    hide EncodePair, EncodePairs, Sort, PairsAscend;
    var sorted := Sort(EncodePairs(params));
    SortSorts(EncodePairs(params));
    forall q | q in sorted ensures q in EncodePairs(params) { assert q in multiset(sorted); }
    ps := SortedSource(sorted, params);
    EncodedMultisets(ps, params);
    forall i, j | 0 <= i < j < |ps| ensures PairsAscend(EncodePair(ps[i]), EncodePair(ps[j])) {
      SortedAscends(EncodePairs(params), i, j);
      EncodedAt(ps, i);
      EncodedAt(ps, j);
    }
  }

  lemma EncodedAt(ps: seq<Pair>, i: nat)
    requires i < |ps|
    ensures EncodePairs(ps)[i] == EncodePair(ps[i])
  {
  }

  /** The base string is the method, the encoded URI and the encoded parameter string between its
      last two `&`; the parameter string is the encoded parameters as `k=v` between `&`. */
  lemma BaseStringSays(upper: string -> string, httpMethod: string, baseUri: string, params: seq<Pair>)
    returns (uri: string, encoded: string, s: string, ps: seq<Pair>)
    ensures BaseString(upper, httpMethod, baseUri, params) == upper(httpMethod) + "&" + uri + "&" + encoded
    ensures '&' !in uri && DecodeBytes(uri) == Utf8.OfString(baseUri)
    ensures '&' !in encoded && DecodeBytes(encoded) == Utf8.OfString(s)
    ensures multiset(ps) == multiset(params)
    ensures forall i, j | 0 <= i < j < |ps| :: PairsAscend(EncodePair(ps[i]), EncodePair(ps[j]))
    ensures if ps == [] then s == ""
            else |SplitOn(s, '&')| == |ps| &&
                 forall i | 0 <= i < |ps| ::
                   SplitOn(s, '&')[i] == PercentEncode(ps[i].0) + "=" + PercentEncode(ps[i].1)
  {
    hide Sort, SplitOn, DecodeBytes, EncodeBytes, PairsAscend;
    uri, s := PercentEncode(baseUri), ParamString(params);
    encoded := PercentEncode(s);
    DecodeEncode(Utf8.OfString(baseUri));
    DecodeEncode(Utf8.OfString(s));
    ps := InEncodedOrder(params);
    if ps != [] {
      SortedEncodedClean(params);
      QueryString.PiecesClean(EncodePairs(ps));
      SplitJoin(QueryString.Assignments(EncodePairs(ps)), '&');
    } else {
      assert EncodePairs(ps) == [];
    }
  }
}
