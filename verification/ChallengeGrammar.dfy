/** `WWW-Authenticate` values as servers write them (section 4.1 of RFC 7235), and what the parser
    makes of them. */
module ChallengeGrammar {
  import opened Text
  import opened Challenge
  import Digest
  import opened DigestHeader

  // ---------- the written form ----------

  /** A character of a quoted string, plain or behind a backslash. */
  datatype Item = Plain(c: char) | Escaped(c: char)

  datatype Value = Token(s: string) | Quoted(items: seq<Item>)

  /** `key=value`, with blanks allowed behind the `=`. */
  datatype Param = Param(key: string, gap: string, value: Value)

  /** What stands between two commas: nothing, a parameter, or a scheme with or without its first
      parameter; with blanks around it. */
  datatype Part =
    | Nothing(before: string)
    | More(before: string, param: Param, after: string)
    | Begin(before: string, scheme: string, gap: string, param: Param, after: string)
    | Alone(before: string, scheme: string, after: string)

  predicate Word(s: string) {
    s != "" && forall i | 0 <= i < |s| :: !IsWhitespace(s[i]) && s[i] != '=' && s[i] != ',' && s[i] != '"'
  }

  predicate ValidItem(i: Item) {
    i.Plain? ==> i.c != '"' && i.c != '\\'
  }

  predicate ValidValue(v: Value) {
    match v
    case Token(s) => s != "" && Trimmed(s) && ',' !in s && '"' !in s
    case Quoted(items) => forall i | 0 <= i < |items| :: ValidItem(items[i])
  }

  predicate ValidParam(p: Param) {
    Word(p.key) && Blank(p.gap) && ValidValue(p.value)
  }

  predicate ValidPart(p: Part) {
    match p
    case Nothing(w) => Blank(w)
    case More(w, param, v) => Blank(w) && ValidParam(param) && Blank(v)
    case Begin(w, scheme, gap, param, v) =>
      Blank(w) && Word(scheme) && gap != "" && Blank(gap) && ValidParam(param) && Blank(v)
    case Alone(w, scheme, v) => Blank(w) && Word(scheme) && Blank(v)
  }

  function ItemText(i: Item): (s: string) {
    if i.Plain? then [i.c] else ['\\', i.c]
  }

  function ItemsText(items: seq<Item>): (s: string) {
    if items == [] then "" else ItemText(items[0]) + ItemsText(items[1..])
  }

  function ItemsValue(items: seq<Item>): (s: string)
    ensures |s| == |items| && forall i | 0 <= i < |items| :: s[i] == items[i].c
  {
    seq(|items|, i requires 0 <= i < |items| => items[i].c)
  }

  function ValueText(v: Value): (s: string) {
    match v
    case Token(s) => s
    case Quoted(items) => "\"" + ItemsText(items) + "\""
  }

  /** The value meant: the token, or the characters of the string without quotes and backslashes. */
  function Meant(v: Value): (s: string) {
    match v
    case Token(s) => s
    case Quoted(items) => ItemsValue(items)
  }

  function ParamText(p: Param): (s: string) {
    p.key + "=" + p.gap + ValueText(p.value)
  }

  /** A part without the blanks around it. */
  function Core(p: Part): (s: string) {
    match p
    case Nothing(_) => ""
    case More(_, param, _) => ParamText(param)
    case Begin(_, scheme, gap, param, _) => scheme + gap + ParamText(param)
    case Alone(_, scheme, _) => scheme
  }

  function PartText(p: Part): (s: string) {
    p.before + Core(p) + (if p.Nothing? then "" else p.after)
  }

  function PartTexts(ps: seq<Part>): (ss: seq<string>)
    ensures |ss| == |ps| && forall i | 0 <= i < |ps| :: ss[i] == PartText(ps[i])
  {
    seq(|ps|, i requires 0 <= i < |ps| => PartText(ps[i]))
  }

  // ---------- what it means ----------

  function Put(params: Params, p: Param): (r: Params) {
    params[Lower(p.key) := Meant(p.value)]
  }

  /** The challenges, given the one under way: a scheme begins the next, and parameters belong to
      the one under way. */
  function Meaning(current: Option<Challenge>, ps: seq<Part>): (cs: seq<Challenge>)
    decreases |ps|
  {
    if ps == [] then Flush(current)
    else match ps[0]
      case Nothing(_) => Meaning(current, ps[1..])
      case More(_, param, _) =>
        Meaning(if current.None? then None
                else Some(Challenge(current.value.scheme, Put(current.value.params, param))), ps[1..])
      case Begin(_, scheme, _, param, _) =>
        Flush(current) + Meaning(Some(Challenge(scheme, Put(map[], param))), ps[1..])
      case Alone(_, scheme, _) => Flush(current) + Meaning(Some(Challenge(scheme, map[])), ps[1..])
  }

  // ---------- scanning ----------

  lemma {:induction false} ItemsScan(items: seq<Item>)
    requires forall i | 0 <= i < |items| :: ValidItem(items[i])
    ensures After(QUOTED, ItemsText(items)) == QUOTED && NoBreak(QUOTED, ItemsText(items))
  {
    if items != [] {
      ItemsScan(items[1..]);
      var e := ItemText(items[0]);
      assert ValidItem(items[0]);
      AfterConcat(QUOTED, e, ItemsText(items[1..]));
      if |e| == 2 { assert e[1..] == [e[1]] && e[1..][1..] == ""; } else { assert e[1..] == ""; }
    }
  }

  lemma UnescapeItem(item: Item, tail: string)
    requires ValidItem(item)
    ensures Unescape(ItemText(item) + tail) == [item.c] + Unescape(tail)
  {
    var e := ItemText(item);
    var s := e + tail;
    assert s[|e|..] == tail && s[0] == e[0];
    if |e| == 2 { assert s[1] == e[1]; }
  }

  lemma ItemsCons(items: seq<Item>, end: string)
    requires items != []
    ensures ItemsText(items) + end == ItemText(items[0]) + (ItemsText(items[1..]) + end)
    ensures ItemsValue(items) == [items[0].c] + ItemsValue(items[1..])
  {
    hide ItemText;
  }

  /** A quoted string is read up to its closing quote or, without one, to its end. */
  lemma {:induction false} ItemsUnescape(items: seq<Item>, end: string)
    requires forall i | 0 <= i < |items| :: ValidItem(items[i])
    requires end == "" || end == "\\" || end[0] == '"'
    ensures Unescape(ItemsText(items) + end) == ItemsValue(items)
  {
    if items == [] {
      assert ItemsText(items) + end == end;
    } else {
      hide Unescape, ItemsText, ItemText, ItemsValue;
      assert ValidItem(items[0]);
      ItemsCons(items, end);
      UnescapeItem(items[0], ItemsText(items[1..]) + end);
      ItemsUnescape(items[1..], end);
    }
  }

  /** Scanned on its own the text exposes no comma and closes its quotes. */
  predicate Whole(s: string) {
    NoBreak(START, s) && Balanced(s)
  }

  lemma WholeConcat(s: string, t: string)
    requires Whole(s) && Whole(t)
    ensures Whole(s + t)
  {
    hide After, NoBreak;
    AfterConcat(START, s, t);
  }

  lemma PlainWhole(s: string)
    requires ',' !in s && '"' !in s
    ensures Whole(s)
  {
    hide After, NoBreak;
    Digest.PlainScan(s);
  }

  lemma BlankWhole(w: string)
    requires Blank(w)
    ensures Whole(w)
  {
    hide After, NoBreak;
    NoMarks(w);
    PlainWhole(w);
  }

  lemma NoMarks(w: string)
    requires Blank(w)
    ensures ',' !in w && '"' !in w && '=' !in w
  {
  }

  lemma QuotedWhole(items: seq<Item>)
    requires forall i | 0 <= i < |items| :: ValidItem(items[i])
    ensures Whole("\"" + ItemsText(items) + "\"")
  {
    ItemsScan(items);
    assert After(START, "\"") == QUOTED && NoBreak(START, "\"") by { assert "\""[1..] == ""; }
    assert After(QUOTED, "\"") == START && NoBreak(QUOTED, "\"") by { assert "\""[1..] == ""; }
    hide After, NoBreak, ItemsText;
    AfterConcat(START, "\"", ItemsText(items));
    AfterConcat(START, "\"" + ItemsText(items), "\"");
  }

  lemma WordWhole(s: string)
    requires Word(s)
    ensures Whole(s)
  {
    hide After, NoBreak, IsWhitespace;
    PlainWhole(s);
  }

  lemma ParamWhole(p: Param)
    requires ValidParam(p)
    ensures Whole(ParamText(p))
  {
    hide Whole, ItemsText, Word, Blank;
    WordWhole(p.key);
    PlainWhole("=");
    BlankWhole(p.gap);
    if p.value.Token? { PlainWhole(p.value.s); } else { QuotedWhole(p.value.items); }
    WholeConcat(p.key, "=");
    WholeConcat(p.key + "=", p.gap);
    WholeConcat(p.key + "=" + p.gap, ValueText(p.value));
  }

  lemma PartWhole(p: Part)
    requires ValidPart(p)
    ensures Whole(PartText(p))
  {
    hide Whole, ParamText, Word, Blank, ValidParam;
    BlankWhole(p.before);
    match p {
      case Nothing(w) => PlainWhole("");
      case More(w, param, v) => ParamWhole(param);
      case Begin(w, scheme, gap, param, v) =>
        WordWhole(scheme);
        BlankWhole(gap);
        ParamWhole(param);
        WholeConcat(scheme, gap);
        WholeConcat(scheme + gap, ParamText(param));
      case Alone(w, scheme, v) => WordWhole(scheme);
    }
    WholeConcat(p.before, Core(p));
    if p.Nothing? { PlainWhole(""); } else { BlankWhole(p.after); }
    WholeConcat(p.before + Core(p), if p.Nothing? then "" else p.after);
  }

  lemma {:induction false} SplitWhole(parts: seq<string>)
    requires parts != [] && forall i | 0 <= i < |parts| :: Whole(parts[i])
    ensures Split(Join(parts, ",")) == parts
  {
    hide Whole;
    assert Whole(parts[0]);
    OnePart(parts[0]);
    if |parts| > 1 {
      SplitWhole(parts[1..]);
      FirstWhole(parts[0], Join(parts[1..], ","));
      assert parts == [parts[0]] + parts[1..];
    }
  }

  lemma OnePart(s: string)
    requires Whole(s)
    ensures Split(s) == [s]
  {
    assert s + "" == s && "" + s == s;
    SplitCarry(START, "", s, "");
  }

  lemma FirstWhole(s: string, rest: string)
    requires Whole(s)
    ensures Split(s + "," + rest) == [s] + Split(rest)
  {
    hide SplitFrom;
    OnePart(s);
    SplitAppend(START, "", s, rest);
  }

  // ---------- reading one part ----------

  lemma ValueEnds(v: Value)
    requires ValidValue(v)
    ensures ValueText(v) != "" && Trimmed(ValueText(v))
    ensures Unquote(ValueText(v)) == Meant(v)
  {
    hide ItemsText, Unescape;
    match v
    case Token(s) => assert s[0] in s;
    case Quoted(items) =>
      Digest.QuoteVisible();
      var t := ValueText(v);
      assert t[0] == '"' && t[|t| - 1] == '"' && t[1..] == ItemsText(items) + "\"";
      ItemsUnescape(items, "\"");
  }

  /** A quoted string ends at its closing quote, whatever follows; without one it is all that
      could be read, a last lone backslash dropped. */
  lemma QuotedStringEnds(items: seq<Item>, rest: string, slash: bool)
    requires forall i | 0 <= i < |items| :: ValidItem(items[i])
    ensures Unquote("\"" + ItemsText(items) + "\"" + rest) == ItemsValue(items)
    ensures Unquote("\"" + ItemsText(items) + (if slash then "\\" else "")) == ItemsValue(items)
  {
    hide ItemsText, Unescape, Unquote, ItemsValue;
    var text := ItemsText(items);
    ItemsUnescape(items, "\"" + rest);
    UnquoteTail(text + ("\"" + rest));
    assert "\"" + text + "\"" + rest == ['"'] + (text + ("\"" + rest));
    var end := if slash then "\\" else "";
    ItemsUnescape(items, end);
    UnquoteTail(text + end);
    assert "\"" + text + end == ['"'] + (text + end);
  }

  lemma UnquoteTail(s: string)
    ensures Unquote(['"'] + s) == Unescape(s)
  {
    assert (['"'] + s)[1..] == s;
  }

  lemma ParamEnds(p: Param)
    requires ValidParam(p)
    ensures ParamText(p) != "" && Trimmed(ParamText(p))
  {
    hide IsWhitespace, Unquote, ValueText;
    ValueEnds(p.value);
    var s, v := ParamText(p), ValueText(p.value);
    assert s[0] == p.key[0] && s[|s| - 1] == v[|v| - 1];
  }

  lemma WordEnds(s: string)
    requires Word(s)
    ensures s != "" && Trimmed(s) && IndexOfSpace(s) == |s| && IndexOf(s, '=') == |s|
  {
    hide IsWhitespace;
  }

  lemma KeyThenValue(key: string, rest: string)
    requires Word(key)
    ensures var p := key + "=" + rest;
            IndexOf(p, '=') == |key| && IndexOfSpace(p) > |key| && p[..|key|] == key && p[|key| + 1..] == rest
  {
    var p := key + "=" + rest;
    assert !IsWhitespace('=');
    hide IsWhitespace;
    assert p[|key|] == '=' && forall j | 0 <= j < |key| :: p[j] == key[j];
  }

  /** A parameter reads as its lower-cased key and the value meant, whatever blanks surround it. */
  lemma ReadParam(w: string, p: Param, v: string)
    requires Blank(w) && ValidParam(p) && Blank(v)
    ensures ParsePart(w + ParamText(p) + v) == Some((Lower(p.key), Meant(p.value)))
    ensures Trim(w + ParamText(p) + v) == ParamText(p) && !StartsScheme(ParamText(p)) && ParamText(p) != ""
  {
    hide Blank, Word, Trimmed, Unquote, Lower, IndexOf, IndexOfSpace, Meant, ValueText, Trim;
    ParamEnds(p);
    TrimBlanks(w, ParamText(p), v);
    var rest := p.gap + ValueText(p.value);
    assert ParamText(p) == p.key + "=" + rest;
    KeyThenValue(p.key, rest);
    WordEnds(p.key);
    TrimTrimmed(p.key);
    ValueEnds(p.value);
    NoBlank();
    TrimBlanks(p.gap, ValueText(p.value), "");
    assert rest + "" == rest;
    TrimTrimmed(ParamText(p));
  }

  lemma NoBlank()
    ensures Blank("")
  {
  }

  lemma ReadAlone(scheme: string)
    requires Word(scheme)
    ensures StartsScheme(scheme) && NewChallenge(scheme) == Challenge(scheme, map[])
  {
    hide Word, IndexOf, IndexOfSpace;
    WordEnds(scheme);
    assert scheme[..|scheme|] == scheme && scheme[|scheme|..] == "";
    NoPart();
  }

  lemma NoPart()
    ensures ParsePart("") == None
  {
  }

  lemma ReadBegin(scheme: string, gap: string, p: Param)
    requires Word(scheme) && gap != "" && Blank(gap) && ValidParam(p)
    ensures var s := scheme + gap + ParamText(p);
            && StartsScheme(s) && s != "" && Trimmed(s)
            && NewChallenge(s) == Challenge(scheme, Put(map[], p))
  {
    hide ParamText, Word, Blank, IndexOf, IndexOfSpace, ParsePart, IsWhitespace, ValidParam, StartsScheme, Lower, Meant;
    var t := ParamText(p);
    var s := scheme + gap + t;
    SchemeThenGap(scheme, gap, t);
    ParamEnds(p);
    WordEnds(scheme);
    NoBlank();
    ReadParam(gap, p, "");
    assert s[..|scheme|] == scheme;
    assert s[|scheme|..] == gap + t + "";
    assert s[0] == scheme[0] && s[|s| - 1] == t[|t| - 1];
    BeginsScheme(s, |scheme|);
  }

  lemma BeginsScheme(s: string, n: nat)
    requires IndexOfSpace(s) == n && IndexOf(s, '=') > n
    ensures StartsScheme(s)
  {
    hide IndexOf, IndexOfSpace;
  }

  lemma SchemeThenGap(scheme: string, gap: string, rest: string)
    requires Word(scheme) && gap != "" && Blank(gap)
    ensures var s := scheme + gap + rest; IndexOfSpace(s) == |scheme| && IndexOf(s, '=') > |scheme|
  {
    NoMarks(gap);
    hide IsWhitespace;
    var s := scheme + gap + rest;
    assert s[|scheme|] == gap[0] && gap[0] in gap;
    assert forall j | 0 <= j < |scheme| :: s[j] == scheme[j];
  }

  // ---------- the whole value ----------

  lemma PartStep(current: Option<Challenge>, p: Part, parts: seq<string>)
    requires ValidPart(p)
    ensures Group(current, [PartText(p)] + parts) ==
            match p
            case Nothing(_) => Group(current, parts)
            case More(_, param, _) =>
              Group(if current.None? then None
                    else Some(Challenge(current.value.scheme, Put(current.value.params, param))), parts)
            case Begin(_, scheme, _, param, _) =>
              Flush(current) + Group(Some(Challenge(scheme, Put(map[], param))), parts)
            case Alone(_, scheme, _) => Flush(current) + Group(Some(Challenge(scheme, map[])), parts)
  {
    hide ParamText, Word, Blank, Trim, Trimmed, StartsScheme, ParsePart, ValidParam, NewChallenge;
    var s := PartText(p);
    assert ([s] + parts)[0] == s && ([s] + parts)[1..] == parts;
    match p
    case Nothing(w) =>
      TrimNothing(w);
      assert w + "" + "" == w;
      var g := Group(current, parts);
      assert [] + g == g;
    case More(w, param, v) =>
      ReadParam(w, param, v);
      assert s == w + ParamText(param) + v;
      NoBlank();
      ReadParam("", param, "");
      assert "" + ParamText(param) + "" == ParamText(param);
      var next := if current.None? then None
                  else Some(Challenge(current.value.scheme, Put(current.value.params, param)));
      assert Next(current, s) == next && Emitted(current, s) == [];
      var g := Group(next, parts);
      assert [] + g == g;
    case Begin(w, scheme, gap, param, v) =>
      ReadBegin(scheme, gap, param);
      TrimBlanks(w, Core(p), v);
    case Alone(w, scheme, v) =>
      WordEnds(scheme);
      ReadAlone(scheme);
      TrimBlanks(w, scheme, v);
  }

  lemma {:induction false} TrimNothing(w: string)
    requires Blank(w)
    ensures Trim(w) == ""
  {
    hide IsWhitespace;
    if w != "" { TrimNothing(w[1..]); }
  }

  lemma {:induction false} GroupMeans(current: Option<Challenge>, ps: seq<Part>)
    requires forall i | 0 <= i < |ps| :: ValidPart(ps[i])
    ensures Group(current, PartTexts(ps)) == Meaning(current, ps)
    decreases |ps|
  {
    hide PartText, ValidPart, Put, Next, Emitted, Flush;
    if ps != [] {
      assert ValidPart(ps[0]);
      PartStep(current, ps[0], PartTexts(ps[1..]));
      assert PartTexts(ps) == [PartText(ps[0])] + PartTexts(ps[1..]);
      match ps[0]
      case Nothing(_) => GroupMeans(current, ps[1..]);
      case More(_, param, _) =>
        GroupMeans(if current.None? then None
                   else Some(Challenge(current.value.scheme, Put(current.value.params, param))), ps[1..]);
      case Begin(_, scheme, _, param, _) => GroupMeans(Some(Challenge(scheme, Put(map[], param))), ps[1..]);
      case Alone(_, scheme, _) => GroupMeans(Some(Challenge(scheme, map[])), ps[1..]);
    } else {
      assert PartTexts(ps) == [];
    }
  }

  /** Every header value of this form parses to the challenges it means: commas and escapes in
      quoted strings, several challenges, empty parts and blanks included. */
  lemma ParseMeans(ps: seq<Part>)
    requires ps != [] && forall i | 0 <= i < |ps| :: ValidPart(ps[i])
    ensures Parse(Join(PartTexts(ps), ",")) == Meaning(None, ps)
  {
    hide ValidPart, Split, Group, Meaning, PartText, Join;
    forall i | 0 <= i < |ps| ensures Whole(PartTexts(ps)[i]) { PartWhole(ps[i]); }
    SplitWhole(PartTexts(ps));
    GroupMeans(None, ps);
  }

  // ---------- the Digest challenge ----------

  /** `Digest`, whatever the case. */
  predicate NamesDigest(scheme: string) {
    |scheme| == 6 && forall i | 0 <= i < 6 :: scheme[i] == "digest"[i] || scheme[i] == "DIGEST"[i]
  }

  lemma DigestNamed(scheme: string)
    ensures Lower(scheme) == "digest" <==> NamesDigest(scheme)
  {
    var l, u := "digest", "DIGEST";
    assert forall i | 0 <= i < 6 :: 'a' <= l[i] <= 'z' && u[i] == UpperChar(l[i]);
    if Lower(scheme) == l {
      forall i | 0 <= i < 6 ensures scheme[i] == l[i] || scheme[i] == u[i] { assert LowerChar(scheme[i]) == l[i]; }
    }
    if NamesDigest(scheme) {
      forall i | 0 <= i < 6 ensures Lower(scheme)[i] == l[i] { assert scheme[i] == l[i] || scheme[i] == u[i]; }
      assert Lower(scheme) == l;
    }
  }

  /** The parameters found are those of the first challenge named so. */
  lemma {:induction false} FindDigestFirst(cs: seq<Challenge>)
    ensures FindDigest(cs).None? <==> forall i | 0 <= i < |cs| :: !NamesDigest(cs[i].scheme)
    ensures FindDigest(cs).Some? ==>
              exists i :: 0 <= i < |cs| && NamesDigest(cs[i].scheme) && FindDigest(cs) == Some(cs[i].params)
                && forall j | 0 <= j < i :: !NamesDigest(cs[j].scheme)
  {
    hide NamesDigest, Lower;
    if cs != [] {
      DigestNamed(cs[0].scheme);
      FindDigestFirst(cs[1..]);
      if FindDigest(cs).Some? && !NamesDigest(cs[0].scheme) {
        var tail := cs[1..];
        var i :| 0 <= i < |tail| && NamesDigest(tail[i].scheme) && FindDigest(tail) == Some(tail[i].params)
                && forall j | 0 <= j < i :: !NamesDigest(tail[j].scheme);
        assert cs[i + 1] == tail[i];
        forall j | 0 <= j < i + 1 ensures !NamesDigest(cs[j].scheme) { if j > 0 { assert cs[j] == tail[j - 1]; } }
      }
      assert forall j | 0 <= j < |cs| - 1 :: cs[1..][j] == cs[j + 1];
    }
  }
}
