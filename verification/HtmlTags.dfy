/** Tags as authors write them: any case, any blanks, and attributes with quotes of either
    kind, without quotes and without values. */
module HtmlTags {
  import opened Text
  import opened HtmlSyntax
  import opened HtmlRoundTrip

  // ---------- written attributes ----------

  datatype Form =
    | NoValue
    | Double(v: string)
    | Single(v: string)
    | Unquoted(v: string)

  /** `lead` separates the attribute from what is before it; `before` and `after` are around the `=`. */
  datatype Attr = Attr(lead: string, name: string, before: string, after: string, form: Form)

  predicate Blanks(s: string) {
    forall i | 0 <= i < |s| :: IsSpace(s[i])
  }

  predicate AnyName(name: string) {
    name != "" && IsNameStart(name[0]) && forall i | 0 <= i < |name| :: IsNameChar(name[i])
  }

  predicate ValidForm(f: Form) {
    match f
    case NoValue => true
    case Double(v) => '"' !in v
    case Single(v) => '\'' !in v
    case Unquoted(v) =>
      v != "" && v[0] != '"' && v[0] != '\'' && forall i | 0 <= i < |v| :: !IsSpace(v[i]) && v[i] != '>'
  }

  predicate ValidAttr(a: Attr) {
    a.lead != "" && Blanks(a.lead) && AnyName(a.name) && Blanks(a.before) && Blanks(a.after) && ValidForm(a.form)
  }

  function FormText(f: Form): (s: string) {
    match f
    case NoValue => ""
    case Double(v) => "\"" + v + "\""
    case Single(v) => "'" + v + "'"
    case Unquoted(v) => v
  }

  function Value(f: Form): (v: string) {
    if f.NoValue? then "" else f.v
  }

  function AttrText(a: Attr): (s: string) {
    a.name + (if a.form.NoValue? then "" else a.before + "=" + a.after + FormText(a.form))
  }

  function AttrsText(attrs: seq<Attr>): (s: string) {
    if attrs == [] then "" else attrs[0].lead + AttrText(attrs[0]) + AttrsText(attrs[1..])
  }

  /** The attributes one after the other. */
  function Collect(attrs: seq<Attr>, r: Attrs): (all: Attrs)
    decreases |attrs|
  {
    if attrs == [] then r else Collect(attrs[1..], SetAttr(r, Lower(attrs[0].name), Value(attrs[0].form)))
  }

  // ---------- reading them ----------

  /** What may follow an attribute: a blank or the end of the tag; not a slash behind an unquoted value. */
  predicate Follows(f: Form, rest: string) {
    rest != "" && (IsSpace(rest[0]) || rest[0] == '>' || (rest[0] == '/' && !f.Unquoted?))
  }

  lemma {:induction false} SkipBlanks(w: string, rest: string)
    requires Blanks(w)
    ensures SkipWs(w + rest) == SkipWs(rest)
  {
    hide IsSpace;
    if w == "" {
      assert w + rest == rest;
    } else {
      assert (w + rest)[0] == w[0] && (w + rest)[1..] == w[1..] + rest;
      SkipBlanks(w[1..], rest);
    }
  }

  lemma SkipTo(w: string, rest: string)
    requires Blanks(w) && (rest == "" || !IsSpace(rest[0]))
    ensures SkipWs(w + rest) == rest
  {
    SkipBlanks(w, rest);
    NoSpace(rest);
  }

  lemma QuotedValue(q: char, v: string, rest: string)
    requires (q == '"' || q == '\'') && q !in v
    ensures var t := [q] + v + [q] + rest;
            t[0] == q && IndexOf(t[1..], q) == |v| && t[1..][..|v|] == v && t[1..][|v| + 1..] == rest
  {
    var t := [q] + v + [q] + rest;
    assert t[1..] == v + [q] + rest;
    IndexAfter(v, q, rest);
  }

  lemma QuotesVisible()
    ensures !IsSpace('"') && !IsSpace('\'') && !IsSpace('=') && !IsSpace('>') && !IsSpace('/') && !IsNameChar('=')
    ensures !IsNameChar('>') && !IsNameChar('/')
  {
  }

  /** A value is read to its end whatever stands around it. */
  lemma ReadForm(after: string, f: Form, rest: string)
    requires !f.NoValue? && ValidForm(f) && Blanks(after) && (f.Unquoted? ==> Follows(f, rest))
    ensures AttrValue("=" + after + FormText(f) + rest) == (f.v, rest)
  {
    hide IsSpace;
    QuotesVisible();
    var s, t := "=" + after + FormText(f) + rest, FormText(f) + rest;
    assert s[1..] == after + t;
    SkipTo(after, t);
    match f
    case Double(v) =>
      QuotedValue('"', v, rest);
      assert t == ['"'] + v + ['"'] + rest;
    case Single(v) =>
      QuotedValue('\'', v, rest);
      assert t == ['\''] + v + ['\''] + rest;
    case Unquoted(v) =>
      SpanStops(IsBareChar, v, rest);
      assert t[..|v|] == v && t[|v|..] == rest;
    case NoValue =>
  }

  lemma NameThen(name: string, rest: string)
    requires AnyName(name) && (rest == "" || !IsNameChar(rest[0]))
    ensures NameLength(name + rest) == |name| && (name + rest)[..|name|] == name && (name + rest)[|name|..] == rest
    ensures !IsSpace((name + rest)[0]) && (name + rest)[0] != '>' && (name + rest)[0] != '/'
  {
    SpanStops(IsNameChar, name, rest);
    NameCharsVisible(name[0]);
  }

  lemma SpaceNoName(c: char)
    requires IsSpace(c)
    ensures !IsNameChar(c)
  {
    if IsNameChar(c) { NameCharsVisible(c); }
  }

  /** What follows the name of an attribute. */
  function AfterName(a: Attr, rest: string): (u: string) {
    if a.form.NoValue? then rest else a.before + ("=" + a.after + FormText(a.form) + rest)
  }

  lemma NameFirst(a: Attr, rest: string)
    requires ValidAttr(a) && Follows(a.form, rest)
    ensures var s, t, n := a.lead + AttrText(a) + rest, a.name + AfterName(a, rest), |a.name|;
            && SkipWs(s) == t && NameLength(t) == n && t[..n] == a.name && t[n..] == AfterName(a, rest)
            && t != "" && t[0] != '>' && t[0] != '/'
  {
    hide IsSpace, IsNameChar, SkipWs, NameLength, ValidForm, IsNameStart, FormText;
    QuotesVisible();
    var u := AfterName(a, rest);
    assert a.lead + AttrText(a) + rest == a.lead + (a.name + u);
    assert u[0] == if a.form.NoValue? then rest[0] else if a.before != "" then a.before[0] else '=';
    if IsSpace(u[0]) { SpaceNoName(u[0]); }
    NameThen(a.name, u);
    SkipTo(a.lead, a.name + u);
  }

  /** One attribute, and what is left up to blanks. */
  lemma ReadOne(a: Attr, rest: string)
    requires ValidAttr(a) && Follows(a.form, rest) && (a.form.NoValue? ==> SkipWs(rest) != "" && SkipWs(rest)[0] != '=')
    ensures var step := NextAttr(a.lead + AttrText(a) + rest);
            && step.OneAttr? && step.name == Lower(a.name) && step.value == Value(a.form)
            && step.rest == (if a.form.NoValue? then SkipWs(rest) else rest)
  {
    hide IsSpace, IsNameChar, AttrValue, SkipWs, NameLength, ValidForm, IsNameStart, AttrText, FormText, Lower;
    QuotesVisible();
    NameFirst(a, rest);
    if !a.form.NoValue? {
      SkipTo(a.before, "=" + a.after + FormText(a.form) + rest);
      ReadForm(a.after, a.form, rest);
    }
  }

  /** Blanks before an attribute do not matter. */
  lemma SkipFirst(s: string, attrs: Attrs)
    requires SkipWs(s) != ""
    ensures ParseAttrs(SkipWs(s), attrs) == ParseAttrs(s, attrs)
  {
    NoSpace(SkipWs(s));
    hide SkipWs, AttrValue, NameLength, SetAttr;
    assert NextAttr(SkipWs(s)) == NextAttr(s);
    hide NextAttr;
    if s == "" { EmptySkips(); }
  }

  lemma EmptySkips()
    ensures SkipWs("") == ""
  {
  }

  predicate ValidAttrs(attrs: seq<Attr>) {
    forall i | 0 <= i < |attrs| :: ValidAttr(attrs[i])
  }

  /** The end of a tag: blanks, and `>` or `/>`. */
  predicate TagEnd(tail: string, end: string) {
    Blanks(tail) && EndsTag(end)
  }

  lemma TailFollows(attrs: seq<Attr>, tail: string, end: string, f: Form)
    requires ValidAttrs(attrs) && TagEnd(tail, end)
    requires attrs == [] && f.Unquoted? && end[0] == '/' ==> tail != ""
    ensures Follows(f, AttrsText(attrs) + tail + end)
    ensures var t := SkipWs(AttrsText(attrs) + tail + end); t != "" && t[0] != '='
  {
    hide IsSpace, IsNameChar, IsNameStart, ValidForm;
    QuotesVisible();
    var s := AttrsText(attrs) + tail + end;
    if attrs == [] {
      assert s == tail + end;
      SkipTo(tail, end);
    } else {
      var a := attrs[0];
      assert ValidAttr(a);
      var rest := AttrText(a) + AttrsText(attrs[1..]) + tail + end;
      assert s == a.lead + rest && rest[0] == a.name[0];
      NameCharsVisible(a.name[0]);
      SkipTo(a.lead, rest);
      assert IsNameStart(a.name[0]);
      NotEquals(a.name[0]);
    }
  }

  lemma NotEquals(c: char)
    requires IsNameStart(c)
    ensures c != '='
  {
  }

  /** The last attribute is not an unquoted value that the slash would belong to. */
  predicate Terminated(attrs: seq<Attr>, tail: string, end: string) {
    attrs != [] && attrs[|attrs| - 1].form.Unquoted? && end != "" && end[0] == '/' ==> tail != ""
  }

  lemma {:induction false} ReadAll(attrs: seq<Attr>, tail: string, end: string, r: Attrs)
    requires ValidAttrs(attrs) && TagEnd(tail, end) && Terminated(attrs, tail, end)
    ensures ParseAttrs(AttrsText(attrs) + tail + end, r) == (Collect(attrs, r), end)
    decreases |attrs|
  {
    hide IsSpace, NextAttr, SetAttr, ValidAttr, AttrText, Follows, SkipWs;
    var s := AttrsText(attrs) + tail + end;
    if attrs == [] {
      assert s == tail + end;
      NoAttrsLeft(tail, end, r);
    } else {
      var a, more := attrs[0], attrs[1..];
      var rest := AttrsText(more) + tail + end;
      assert s == a.lead + AttrText(a) + rest;
      TailFollows(more, tail, end, a.form);
      ReadOne(a, rest);
      SkipFirst(rest, SetAttr(r, Lower(a.name), Value(a.form)));
      ReadAll(more, tail, end, SetAttr(r, Lower(a.name), Value(a.form)));
      assert s != "" by { LeadNonempty(a); }
    }
  }

  lemma LeadNonempty(a: Attr)
    requires ValidAttr(a)
    ensures a.lead != ""
  {
  }

  lemma NoAttrsLeft(tail: string, end: string, r: Attrs)
    requires TagEnd(tail, end)
    ensures ParseAttrs(tail + end, r) == (r, end)
  {
    hide IsSpace;
    QuotesVisible();
    SkipTo(tail, end);
  }

  predicate AnyTag(tag: string) {
    tag != "" && IsLetter(tag[0]) && forall i | 0 <= i < |tag| :: IsTagChar(tag[i])
  }

  lemma TagThen(tag: string, rest: string)
    requires AnyTag(tag) && (rest == "" || !IsTagChar(rest[0]))
    ensures TagLength(tag + rest) == |tag| && (tag + rest)[..|tag|] == tag && (tag + rest)[|tag|..] == rest
    ensures (tag + rest)[0] != '/' && (tag + rest)[0] != '!'
  {
    SpanStops(IsTagChar, tag, rest);
  }

  lemma NoTagChar(c: char)
    requires IsSpace(c) || c == '>' || c == '/'
    ensures !IsTagChar(c)
  {
  }

  /** A start tag, however it is written: its lower-cased name, the attributes collected, and
      whether it closes itself. */
  lemma StartTag(tag: string, attrs: seq<Attr>, tail: string, slash: bool, rest: string)
    requires AnyTag(tag) && ValidAttrs(attrs) && Blanks(tail)
    requires Terminated(attrs, tail, if slash then "/>" else ">")
    ensures ParseTag("<" + tag + AttrsText(attrs) + tail + (if slash then "/>" else ">") + rest) ==
            (if slash || IsVoidTag(Lower(tag)) then VoidTag(Lower(tag), Collect(attrs, []))
             else OpenTag(Lower(tag), Collect(attrs, [])), rest)
  {
    hide IsSpace, IsTagChar, IsLetter, ParseAttrs, ParseTag, TagLength, Lower, IsVoidTag, ValidAttr, SetAttr, AttrsText;
    var end := (if slash then "/>" else ">") + rest;
    var a := AttrsText(attrs) + tail + end;
    TailFollows(attrs, tail, end, NoValue);
    NoTagChar(a[0]);
    TagThen(tag, a);
    var p := tag + a;
    StartTagParts(['<'] + p, p, |tag|);
    assert ['<'] + p == "<" + tag + AttrsText(attrs) + tail + (if slash then "/>" else ">") + rest;
    ReadAll(attrs, tail, end, []);
    if slash { assert end[1..] == ">" + rest; }
    assert Drop1(">" + rest) == rest;
  }

  /** A closing tag, however it is written and whatever stands between its name and `>`. */
  lemma EndTag(tag: string, junk: string, rest: string)
    requires AnyTag(tag) && '>' !in junk && (junk == "" || !IsTagChar(junk[0]))
    ensures ParseTag("</" + tag + junk + ">" + rest) == (CloseTag(Lower(tag)), rest)
  {
    hide IsLetter, Lower, TagLength, ParseTag, CloseLength;
    NoTagChar('>');
    var c := junk + ['>'] + rest;
    var q := tag + c;
    TagThen(tag, c);
    assert ['<', '/'] + q == "</" + tag + junk + ">" + rest;
    CloseTagParts(['<', '/'] + q, q, |tag|);
    CloseAfter(junk, rest);
  }

  lemma CloseAfter(junk: string, rest: string)
    requires '>' !in junk
    ensures var c := junk + ['>'] + rest; c[CloseLength(c)..] == rest
  {
    IndexAfter(junk, '>', rest);
  }

  // ---------- what the collected attributes are ----------

  /** Attribute `i` is the last with its name. */
  predicate LastNamed(attrs: seq<Attr>, name: string, i: nat) {
    i < |attrs| && Lower(attrs[i].name) == name && forall j | i < j < |attrs| :: Lower(attrs[j].name) != name
  }

  lemma {:induction false} SetAttrAt(r: Attrs, name: string, value: string, k: string)
    ensures Lookup(SetAttr(r, name, value), k) == if name == k && k != "__proto__" then Some(value) else Lookup(r, k)
  {
    if name != "__proto__" && r != [] && r[0].0 != name { SetAttrAt(r[1..], name, value, k); }
  }

  /** The value stored under a name. */
  function Lookup(r: Attrs, k: string): (v: Option<string>) {
    if r == [] then None else if r[0].0 == k then Some(r[0].1) else Lookup(r[1..], k)
  }

  /** Of several attributes with one name the last has its value stored. */
  lemma {:induction false} CollectLast(attrs: seq<Attr>, r: Attrs, k: string, i: nat)
    requires LastNamed(attrs, k, i) && k != "__proto__"
    ensures Lookup(Collect(attrs, r), k) == Some(Value(attrs[i].form))
    decreases |attrs|
  {
    hide Lookup, SetAttr, Lower;
    var a, more := attrs[0], attrs[1..];
    assert forall j | 0 <= j < |more| :: more[j] == attrs[j + 1];
    var next := SetAttr(r, Lower(a.name), Value(a.form));
    if i > 0 {
      CollectLast(more, next, k, i - 1);
    } else {
      SetAttrAt(r, Lower(a.name), Value(a.form), k);
      CollectLacks(more, next, k);
    }
  }

  /** Names that do not occur are not stored, and `__proto__` never is. */
  lemma {:induction false} CollectLacks(attrs: seq<Attr>, r: Attrs, k: string)
    requires k == "__proto__" || forall j | 0 <= j < |attrs| :: Lower(attrs[j].name) != k
    ensures Lookup(Collect(attrs, r), k) == Lookup(r, k)
    decreases |attrs|
  {
    hide Lookup, SetAttr, Lower;
    if attrs != [] {
      SetAttrAt(r, Lower(attrs[0].name), Value(attrs[0].form), k);
      CollectLacks(attrs[1..], SetAttr(r, Lower(attrs[0].name), Value(attrs[0].form)), k);
    }
  }

  function NamesOf(r: Attrs): (names: seq<string>) {
    seq(|r|, i requires 0 <= i < |r| => r[i].0)
  }

  /** A name that is set again keeps its place, and a new one comes last. */
  lemma {:induction false} SetAttrPlace(r: Attrs, name: string, value: string)
    ensures NamesOf(SetAttr(r, name, value)) ==
            if name == "__proto__" || name in NamesOf(r) then NamesOf(r) else NamesOf(r) + [name]
  {
    if name != "__proto__" && r != [] && r[0].0 != name {
      SetAttrPlace(r[1..], name, value);
      assert NamesOf(r) == [r[0].0] + NamesOf(r[1..]);
      var set1 := SetAttr(r[1..], name, value);
      assert NamesOf([r[0]] + set1) == [r[0].0] + NamesOf(set1);
    } else if r != [] {
      assert r[0].0 == NamesOf(r)[0];
    }
  }

  // ---------- values that do not end ----------

  /** A quoted value without its closing quote is the rest of the input, which is then read again. */
  lemma UnterminatedValue(q: char, v: string)
    requires (q == '"' || q == '\'') && q !in v
    ensures AttrValue("=" + [q] + v) == (v, v)
  {
    hide IsSpace;
    QuotesVisible();
    var s, t := "=" + [q] + v, [q] + v;
    assert s[1..] == t && t[1..] == v;
    NoSpace(t);
    assert forall j | 0 <= j < |v| :: v[j] in v;
  }

  /** Behind an `=` at the end of the input the step back lands on the character before. */
  lemma MissingValue(w: string)
    requires Blanks(w)
    ensures AttrValue("=" + w) == if w == "" then ("=", "") else ("", [w[|w| - 1]])
  {
    hide IsSpace;
    QuotesVisible();
    var s := "=" + w;
    assert s[1..] == w && w + "" == w;
    SkipTo(w, "");
    var back := s[|s| - 1..];
    assert back == if w == "" then "=" else [w[|w| - 1]];
    assert w == "" ==> back[..1] == "=" && back[1..] == "" && Span(IsBareChar, back) == 1;
  }
}
