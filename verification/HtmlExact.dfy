/** Which documents survive being written and read back: exactly those in normal form. */
module HtmlExact {
  import opened Text
  import opened HtmlSyntax
  import opened HtmlRoundTrip

  // ---------- what the reader can produce ----------

  predicate Readable(n: Tree) {
    match n
    case TextNode(text) => text != "" && '<' !in text
    case Void(tag, attrs) => IsTagName(tag) && Named(attrs)
    case Element(tag, attrs, children) =>
      IsTagName(tag) && !IsVoidTag(tag) && Named(attrs) && forall i | 0 <= i < |children| :: Readable(children[i])
  }

  predicate AllReadable(children: seq<Tree>) {
    forall i | 0 <= i < |children| :: Readable(children[i])
  }

  predicate ReadableFrame(f: Frame) {
    IsTagName(f.tag) && !IsVoidTag(f.tag) && Named(f.attrs) && AllReadable(f.children)
  }

  predicate ReadableStack(stack: seq<Frame>) {
    && stack != [] && AllReadable(stack[0].children)
    && forall i | 0 < i < |stack| :: ReadableFrame(stack[i])
  }

  predicate ReadableToken(token: Token) {
    match token
    case OpenTag(tag, attrs) => IsTagName(tag) && !IsVoidTag(tag) && Named(attrs)
    case VoidTag(tag, attrs) => IsTagName(tag) && Named(attrs)
    case _ => true
  }

  lemma LowerTag(s: string)
    ensures IsTagName(Lower(s[..TagLength(s)]))
  {
  }

  lemma LowerAttrName(s: string)
    requires NameLength(s) > 0 && Lower(s[..NameLength(s)]) != "__proto__"
    ensures IsAttrName(Lower(s[..NameLength(s)]))
  {
  }

  predicate Lacks(attrs: Attrs, name: string) {
    forall i | 0 <= i < |attrs| :: attrs[i].0 != name
  }

  lemma {:induction false} SetLacks(attrs: Attrs, name: string, value: string, other: string)
    requires Lacks(attrs, other) && other != name
    ensures Lacks(SetAttr(attrs, name, value), other)
  {
    if name != "__proto__" && attrs != [] && attrs[0].0 != name {
      SetLacks(attrs[1..], name, value, other);
    }
  }

  lemma {:induction false} SetNamed(attrs: Attrs, name: string, value: string)
    requires Named(attrs) && (name == "__proto__" || IsAttrName(name))
    ensures Named(SetAttr(attrs, name, value))
  {
    hide IsAttrName;
    if name != "__proto__" && attrs != [] && attrs[0].0 != name {
      SetNamed(attrs[1..], name, value);
      SetLacks(attrs[1..], name, value, attrs[0].0);
    }
  }

  lemma NextNamed(s: string)
    ensures NextAttr(s).OneAttr? ==> NextAttr(s).name == "__proto__" || IsAttrName(NextAttr(s).name)
  {
    hide IsAttrName, AttrValue, NameLength, Lower;
    var t := SkipWs(s);
    if NameLength(t) > 0 && Lower(t[..NameLength(t)]) != "__proto__" { LowerAttrName(t); }
  }

  lemma {:induction false} AttrsNamed(s: string, attrs: Attrs)
    requires Named(attrs)
    ensures Named(ParseAttrs(s, attrs).0)
    decreases |s|
  {
    hide NextAttr, SetAttr, Named;
    if s != "" && NextAttr(s).OneAttr? {
      var a := NextAttr(s);
      NextNamed(s);
      SetNamed(attrs, a.name, a.value);
      AttrsNamed(a.rest, SetAttr(attrs, a.name, a.value));
    }
  }

  lemma TokenReadable(s: string)
    requires s != "" && s[0] == '<'
    ensures ReadableToken(ParseTag(s).0)
  {
    assert Named([]);
    hide Named, IsTagName, TagLength, ParseAttrs, IsVoidTag;
    var p := s[1..];
    LowerTag(p);
    AttrsNamed(p[TagLength(p)..], []);
  }

  lemma AppendReadable(stack: seq<Frame>, n: Tree)
    requires ReadableStack(stack) && Readable(n)
    ensures ReadableStack(Append(stack, n))
  {
    hide Readable, Named, IsTagName, IsVoidTag;
  }

  lemma PopReadable(stack: seq<Frame>)
    requires ReadableStack(stack) && |stack| >= 2
    ensures ReadableStack(Pop(stack))
  {
    hide Append, Named, IsTagName, IsVoidTag;
    var top := stack[|stack| - 1];
    assert ReadableFrame(top);
    assert Readable(Element(top.tag, top.attrs, top.children));
    AppendReadable(stack[..|stack| - 1], Element(top.tag, top.attrs, top.children));
  }

  lemma {:induction false} PopToReadable(stack: seq<Frame>, n: nat)
    requires ReadableStack(stack) && 1 <= n <= |stack|
    ensures ReadableStack(PopTo(stack, n))
    decreases |stack|
  {
    hide Pop, ReadableFrame, AllReadable;
    if n < |stack| {
      PopReadable(stack);
      PopToReadable(Pop(stack), n);
    }
  }

  lemma ApplyReadable(stack: seq<Frame>, token: Token)
    requires ReadableStack(stack) && ReadableToken(token)
    ensures ReadableStack(Apply(stack, token))
  {
    hide Append, PopTo, Named, IsTagName, IsVoidTag;
    match token
    case VoidTag(tag, attrs) => AppendReadable(stack, Void(tag, attrs));
    case CloseTag(tag) => if FindOpen(stack, tag) > 0 { PopToReadable(stack, FindOpen(stack, tag)); }
    case _ =>
  }

  lemma RoundReadable(s: string, stack: seq<Frame>)
    requires s != "" && ReadableStack(stack)
    ensures ReadableStack(Round(s, stack).0)
  {
    hide ParseTag, Apply, Append, ReadableFrame, AllReadable, ReadableToken;
    if s[0] == '<' {
      TokenReadable(s);
      ApplyReadable(stack, ParseTag(s).0);
    } else {
      AppendReadable(stack, TextNode(s[..Span(NotOpening, s)]));
    }
  }

  lemma {:induction false} BuildReadable(s: string, stack: seq<Frame>)
    requires ReadableStack(stack)
    ensures ReadableStack(Build(s, stack))
    decreases |s|
  {
    hide Round, ReadableFrame, AllReadable;
    if s != "" {
      RoundReadable(s, stack);
      BuildReadable(Round(s, stack).1, Round(s, stack).0);
    }
  }

  lemma ParseReadable(s: string)
    ensures AllReadable(Parse(s))
  {
    hide Build, PopTo, Readable;
    BuildReadable(s, [ROOT]);
    PopToReadable(Build(s, [ROOT]), 1);
  }

  // ---------- what every way of closing elements keeps ----------

  /** How many values hold a quotation mark. */
  function Quoted(attrs: Attrs): (n: nat) {
    if attrs == [] then 0 else (if '"' in attrs[0].1 then 1 else 0) + Quoted(attrs[1..])
  }

  /** Text nodes, void elements and values with a quotation mark, counted together. */
  function Weight(n: Tree): (w: nat)
    decreases n, 1
  {
    match n
    case TextNode(_) => 1
    case Void(_, attrs) => 1 + Quoted(attrs)
    case Element(_, attrs, children) => Quoted(attrs) + ListWeight(children)
  }

  function ListWeight(children: seq<Tree>): (w: nat)
    decreases children, 0
  {
    if children == [] then 0 else Weight(children[0]) + ListWeight(children[1..])
  }

  function FrameWeight(f: Frame): (w: nat) {
    Quoted(f.attrs) + ListWeight(f.children)
  }

  function StackWeight(stack: seq<Frame>): (w: nat) {
    if stack == [] then 0
    else StackWeight(stack[..|stack| - 1]) + FrameWeight(stack[|stack| - 1])
  }

  function TokenWeight(token: Token): (w: nat) {
    match token
    case OpenTag(_, attrs) => Quoted(attrs)
    case VoidTag(_, attrs) => 1 + Quoted(attrs)
    case _ => 0
  }

  /** The weight of what is still to be read. */
  function TextWeight(s: string): (w: nat)
    decreases |s|
  {
    if s == "" then 0
    else if s[0] == '<' then var (token, rest) := ParseTag(s); TokenWeight(token) + TextWeight(rest)
    else 1 + TextWeight(s[Span(NotOpening, s)..])
  }

  lemma {:induction false} ListWeightAppend(xs: seq<Tree>, n: Tree)
    ensures ListWeight(xs + [n]) == ListWeight(xs) + Weight(n)
  {
    hide Weight;
    if xs == [] {
      assert xs + [n] == [n] && [n][1..] == [];
    } else {
      assert (xs + [n])[1..] == xs[1..] + [n];
      ListWeightAppend(xs[1..], n);
    }
  }

  lemma AppendWeight(stack: seq<Frame>, n: Tree)
    requires stack != []
    ensures StackWeight(Append(stack, n)) == StackWeight(stack) + Weight(n)
  {
    hide Weight, ListWeight;
    var last := |stack| - 1;
    ListWeightAppend(stack[last].children, n);
    assert Append(stack, n)[..last] == stack[..last];
  }

  lemma PopWeight(stack: seq<Frame>)
    requires |stack| >= 2
    ensures StackWeight(Pop(stack)) == StackWeight(stack)
  {
    hide Append, ListWeight;
    var last := |stack| - 1;
    AppendWeight(stack[..last], Element(stack[last].tag, stack[last].attrs, stack[last].children));
  }

  lemma {:induction false} PopToWeight(stack: seq<Frame>, n: nat)
    requires 1 <= n <= |stack|
    ensures StackWeight(PopTo(stack, n)) == StackWeight(stack)
    decreases |stack|
  {
    hide Pop, StackWeight;
    if n < |stack| {
      PopWeight(stack);
      PopToWeight(Pop(stack), n);
    }
  }

  lemma ApplyWeight(stack: seq<Frame>, token: Token)
    requires stack != []
    ensures StackWeight(Apply(stack, token)) == StackWeight(stack) + TokenWeight(token)
  {
    hide Append, PopTo, Quoted;
    match token
    case VoidTag(tag, attrs) => AppendWeight(stack, Void(tag, attrs));
    case CloseTag(tag) => if FindOpen(stack, tag) > 0 { PopToWeight(stack, FindOpen(stack, tag)); }
    case OpenTag(tag, attrs) => assert (stack + [Frame(tag, attrs, [])])[..|stack|] == stack;
    case Comment =>
  }

  lemma {:induction false} BuildWeight(s: string, stack: seq<Frame>)
    requires stack != []
    ensures StackWeight(Build(s, stack)) == StackWeight(stack) + TextWeight(s)
    decreases |s|
  {
    hide ParseTag, Apply, Append, StackWeight, TokenWeight;
    if s != "" {
      if s[0] == '<' {
        ApplyWeight(stack, ParseTag(s).0);
      } else {
        AppendWeight(stack, TextNode(s[..Span(NotOpening, s)]));
      }
      BuildWeight(Round(s, stack).1, Round(s, stack).0);
    }
  }

  /** Nothing that was read is lost or counted twice. */
  lemma ParseWeight(s: string)
    ensures ListWeight(Parse(s)) <= TextWeight(s)
  {
    hide Build, PopTo, ListWeight, TextWeight;
    BuildWeight(s, [ROOT]);
    var stack := PopTo(Build(s, [ROOT]), 1);
    PopToWeight(Build(s, [ROOT]), 1);
    assert stack[..0] == [] && [ROOT][..0] == [];
    NoWeight();
    assert StackWeight(stack) == FrameWeight(stack[0]) && StackWeight([ROOT]) == FrameWeight(ROOT);
  }

  lemma NoWeight()
    ensures FrameWeight(ROOT) == 0
  {
  }

  // ---------- writing loses weight ----------

  function Escaped(attrs: Attrs): (r: Attrs)
    ensures |r| == |attrs| && forall i | 0 <= i < |attrs| :: r[i] == (attrs[i].0, EscapeQuotes(attrs[i].1))
  {
    seq(|attrs|, i requires 0 <= i < |attrs| => (attrs[i].0, EscapeQuotes(attrs[i].1)))
  }

  lemma {:induction false} EscapedUnquoted(s: string)
    ensures '"' !in EscapeQuotes(s)
  {
    if s != "" { EscapedUnquoted(s[1..]); }
  }

  lemma {:induction false} PrintEscaped(attrs: Attrs)
    ensures PrintAttrs(Escaped(attrs)) == PrintAttrs(attrs)
  {
    hide EscapeQuotes;
    if attrs != [] {
      EscapedUnquoted(attrs[0].1);
      NoQuotes(EscapeQuotes(attrs[0].1));
      assert Escaped(attrs)[1..] == Escaped(attrs[1..]);
      PrintEscaped(attrs[1..]);
    }
  }

  lemma EscapedNormal(attrs: Attrs)
    requires Named(attrs)
    ensures NormalAttrs(Escaped(attrs)) && Quoted(Escaped(attrs)) == 0
  {
    hide EscapeQuotes, IsAttrName;
    forall i | 0 <= i < |attrs| ensures '"' !in Escaped(attrs)[i].1 { EscapedUnquoted(attrs[i].1); }
    QuotedCounts(Escaped(attrs));
  }

  lemma {:induction false} QuotedCounts(attrs: Attrs)
    ensures Quoted(attrs) == 0 <==> Unquoted(attrs)
  {
    if attrs != [] {
      QuotedCounts(attrs[1..]);
      assert attrs == [attrs[0]] + attrs[1..];
    }
  }

  lemma TextRun(run: string, rest: string)
    requires run != "" && (forall i | 0 <= i < |run| :: NotOpening(run[i])) && Delimited(rest)
    ensures TextWeight(run + rest) == 1 + TextWeight(rest)
  {
    hide ParseTag, TokenWeight;
    SpanStops(NotOpening, run, rest);
    var s := run + rest;
    assert s[0] == run[0] && s[|run|..] == rest;
  }

  /** Text adds a node of its own unless more text follows. */
  lemma TextThen(text: string, rest: string)
    requires text != "" && '<' !in text
    ensures TextWeight(text + rest) == TextWeight(rest) + if Delimited(rest) then 1 else 0
  {
    hide TextWeight;
    assert forall i | 0 <= i < |text| :: text[i] in text;
    if Delimited(rest) {
      TextRun(text, rest);
    } else {
      var n := Span(NotOpening, rest);
      var run, tail := rest[..n], rest[n..];
      assert rest == run + tail && text + rest == (text + run) + tail;
      TextRun(run, tail);
      TextRun(text + run, tail);
    }
  }

  lemma TagThen(s: string, token: Token, rest: string)
    requires s != "" && s[0] == '<' && ParseTag(s) == (token, rest)
    ensures TextWeight(s) == TokenWeight(token) + TextWeight(rest)
  {
    hide ParseTag;
  }

  lemma WeighVoid(tag: string, attrs: Attrs, rest: string)
    requires IsTagName(tag) && Named(attrs)
    ensures TextWeight(Outer(Void(tag, attrs)) + rest) ==
            TextWeight(rest) + if tag == "" && attrs == [] then 0 else 1
  {
    hide ParseTag, TextWeight, PrintAttrs, IsTagName, Named, NormalAttrs, Quoted, IsVoidTag;
    var n := Void(tag, attrs);
    if tag == "" && attrs == [] {
      assert PrintAttrs([]) == "" by { NoAttrs(); }
      assert Outer(n) + rest == "</" + "" + ">" + rest;
      ReadEnd("", rest);
      TagThen(Outer(n) + rest, CloseTag(""), rest);
    } else {
      EscapedNormal(attrs);
      PrintEscaped(attrs);
      var end := "/>" + rest;
      ReadStart(tag, Escaped(attrs), end);
      assert Outer(n) + rest == "<" + tag + PrintAttrs(attrs) + end;
      assert end[1..] == ">" + rest && Drop1(">" + rest) == rest;
      TagThen(Outer(n) + rest, VoidTag(tag, Escaped(attrs)), rest);
    }
  }

  lemma NoAttrs()
    ensures PrintAttrs([]) == ""
  {
  }

  lemma WeighElement(n: Tree, rest: string)
    requires n.Element? && IsTagName(n.tag) && !IsVoidTag(n.tag) && Named(n.attrs)
    ensures TextWeight(Outer(n) + rest) == TextWeight(Inner(n.children) + ("</" + n.tag + ">" + rest))
    ensures TextWeight("</" + n.tag + ">" + rest) == TextWeight(rest)
  {
    hide ParseTag, TextWeight, PrintAttrs, IsTagName, Named, NormalAttrs, Quoted, IsVoidTag, Inner;
    var close := "</" + n.tag + ">" + rest;
    var inside := Inner(n.children) + close;
    var end := ">" + inside;
    EscapedNormal(n.attrs);
    PrintEscaped(n.attrs);
    ReadStart(n.tag, Escaped(n.attrs), end);
    assert Outer(n) + rest == "<" + n.tag + PrintAttrs(n.attrs) + end by { ElementText(n, rest); }
    assert Drop1(end) == inside by { assert end[1..] == inside; }
    TagThen(Outer(n) + rest, OpenTag(n.tag, Escaped(n.attrs)), inside);
    ReadEnd(n.tag, rest);
    TagThen(close, CloseTag(n.tag), rest);
  }

  /** What is written reads as no more than it was, and as less unless it is in normal form. */
  lemma {:induction false} Weigh(n: Tree, rest: string)
    requires Readable(n) && (n.TextNode? ==> Delimited(rest))
    ensures TextWeight(Outer(n) + rest) <= Weight(n) + TextWeight(rest)
    ensures !Normal(n) ==> TextWeight(Outer(n) + rest) < Weight(n) + TextWeight(rest)
    decreases n, 1
  {
    hide TextWeight, PrintAttrs, IsTagName, Named, Quoted, Unquoted, IsVoidTag, Inner;
    match n
    case TextNode(text) =>
      TextThen(text, rest);
    case Void(tag, attrs) =>
      WeighVoid(tag, attrs, rest);
      QuotedCounts(attrs);
    case Element(tag, attrs, children) =>
      WeighElement(n, rest);
      QuotedCounts(attrs);
      WeighList(children, "</" + tag + ">" + rest);
  }

  lemma {:induction false} WeighList(children: seq<Tree>, rest: string)
    requires AllReadable(children) && Delimited(rest)
    ensures TextWeight(Inner(children) + rest) <= ListWeight(children) + TextWeight(rest)
    ensures !NormalList(children) ==> TextWeight(Inner(children) + rest) < ListWeight(children) + TextWeight(rest)
    decreases children, 0
  {
    hide TextWeight, Outer, Readable, Normal, Weight;
    if children == [] {
      assert Inner(children) + rest == rest;
    } else {
      var n, tail := children[0], children[1..];
      assert Readable(n) && AllReadable(tail);
      InnerCons(children, rest);
      var after := Inner(tail) + rest;
      WeighList(tail, rest);
      if n.TextNode? && tail != [] && tail[0].TextNode? {
        TextBehindText(n, tail, rest);
      } else {
        if n.TextNode? { BracketBehindText(tail, rest); }
        Weigh(n, after);
      }
    }
  }

  lemma TextBehindText(n: Tree, tail: seq<Tree>, rest: string)
    requires n.TextNode? && Readable(n) && tail != [] && tail[0].TextNode? && Readable(tail[0])
    ensures TextWeight(Outer(n) + (Inner(tail) + rest)) == TextWeight(Inner(tail) + rest) && Weight(n) == 1
  {
    hide TextWeight, Inner;
    InnerCons(tail, rest);
    assert tail[0].text[0] in tail[0].text;
    TextThen(n.text, Inner(tail) + rest);
  }

  lemma BracketBehindText(tail: seq<Tree>, rest: string)
    requires (tail == [] || !tail[0].TextNode?) && Delimited(rest)
    ensures Delimited(Inner(tail) + rest)
  {
    hide Outer;
    if tail == [] {
      assert Inner(tail) + rest == rest;
    } else {
      InnerCons(tail, rest);
      StartsWithBracket(tail[0], Inner(tail[1..]) + rest);
    }
  }

  /** A document is what its serialization parses to exactly when it is in normal form. */
  lemma ParsePrintExact(doc: seq<Tree>)
    ensures Parse(Inner(doc)) == doc <==> NormalList(doc)
  {
    hide Parse, Inner, NormalList, TextWeight, ListWeight;
    if NormalList(doc) { ParsePrint(doc); }
    if Parse(Inner(doc)) == doc {
      ParseReadable(Inner(doc));
      ParseWeight(Inner(doc));
      WeighList(doc, "");
      assert Inner(doc) + "" == Inner(doc);
      NothingLeft();
    }
  }

  lemma NothingLeft()
    ensures TextWeight("") == 0
  {
  }

  /** In a written value every quotation mark is replaced, and nothing else. */
  lemma {:induction false} QuotesReplaced(v: string)
    ensures EscapeQuotes(v) == Join(SplitOn(v, '"'), "&quot;")
    decreases |v|
  {
    hide EscapeQuotes, SplitOn, Join;
    var i := IndexOf(v, '"');
    if i == |v| {
      NoQuotes(v);
      SplitNone(v, '"');
      JoinOne(v, "&quot;");
    } else {
      var front, rest := v[..i], v[i + 1..];
      assert v == front + ['"'] + rest;
      hide IndexOf;
      QuotesReplaced(rest);
      SplitFirst(front, '"', rest);
      EscapeAt(front, rest);
      JoinMore(front, SplitOn(rest, '"'), "&quot;");
    }
  }

  lemma JoinOne(p: string, sep: string)
    ensures Join([p], sep) == p
  {
  }

  lemma JoinMore(p: string, ps: seq<string>, sep: string)
    requires ps != []
    ensures Join([p] + ps, sep) == p + sep + Join(ps, sep)
  {
    assert ([p] + ps)[1..] == ps;
  }

  lemma EscapeAt(front: string, rest: string)
    requires '"' !in front
    ensures EscapeQuotes(front + ['"'] + rest) == front + "&quot;" + EscapeQuotes(rest)
  {
    NoQuotes(front);
    EscapeConcat(front, ['"'] + rest);
    assert front + ['"'] + rest == front + (['"'] + rest);
    assert (['"'] + rest)[1..] == rest;
  }

  lemma {:induction false} EscapeConcat(s: string, t: string)
    ensures EscapeQuotes(s + t) == EscapeQuotes(s) + EscapeQuotes(t)
  {
    if s == "" {
      assert s + t == t;
    } else {
      EscapeConcat(s[1..], t);
      assert (s + t)[1..] == s[1..] + t && (s + t)[0] == s[0];
    }
  }
}
