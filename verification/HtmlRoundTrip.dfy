/** Reading back what the serializer wrote. */
module HtmlRoundTrip {
  import opened Text
  import opened HtmlSyntax
  import HtmlTree

  // ---------- scanning written text ----------

  lemma SpanStops(p: char -> bool, s: string, rest: string)
    requires (forall i | 0 <= i < |s| :: p(s[i])) && (rest == "" || !p(rest[0]))
    ensures Span(p, s + rest) == |s|
  {
    var t := s + rest;
    var n := Span(p, t);
    assert forall i | 0 <= i < |s| :: t[i] == s[i];
    assert rest != "" ==> t[|s|] == rest[0];
  }

  lemma NoSpace(s: string)
    requires s == "" || !IsSpace(s[0])
    ensures SkipWs(s) == s
  {
  }

  lemma PlainChars()
    ensures !IsSpace('=') && !IsSpace('"') && !IsSpace('>') && !IsSpace('/') && IsSpace(' ')
    ensures !IsNameChar('=') && !IsTagChar(' ') && !IsTagChar('>') && !IsTagChar('/')
  {
  }

  lemma NameCharsVisible(c: char)
    requires IsNameChar(c)
    ensures !IsSpace(c) && c != '>' && c != '/'
  {
  }

  lemma LowerName(name: string)
    requires forall i | 0 <= i < |name| :: !('A' <= name[i] <= 'Z')
    ensures Lower(name) == name
  {
  }

  lemma {:induction false} NoQuotes(s: string)
    requires '"' !in s
    ensures EscapeQuotes(s) == s
  {
    if s != "" {
      assert s[0] in s;
      NoQuotes(s[1..]);
    }
  }

  // ---------- attributes ----------

  lemma ReadValue(v: string, rest: string)
    requires '"' !in v
    ensures AttrValue("=\"" + v + "\"" + rest) == (v, rest)
  {
    hide IsSpace;
    PlainChars();
    var s := "=\"" + v + "\"" + rest;
    var t := "\"" + v + "\"" + rest;
    assert s[1..] == t;
    NoSpace(t);
    IndexAfter(v, '"', rest);
    assert t[1..] == v + ['"'] + rest;
  }

  lemma ReadAttr(a: (string, string), rest: string)
    requires IsAttrName(a.0) && '"' !in a.1
    ensures NextAttr(PrintAttr(a) + rest) == OneAttr(a.0, a.1, rest)
  {
    hide IsSpace, IsNameChar, AttrValue, EscapeQuotes;
    var (name, v) := a;
    PlainChars();
    NoQuotes(v);
    ReadValue(v, rest);
    LowerName(name);
    NameCharsVisible(name[0]);
    var s := PrintAttr(a) + rest;
    var u := "=\"" + v + "\"" + rest;
    var t := name + u;
    assert s[0] == ' ' && s[1..] == t;
    NoSpace(t);
    assert SkipWs(s) == t;
    SpanStops(IsNameChar, name, u);
    assert t[..|name|] == name && t[|name|..] == u;
    NoSpace(u);
  }

  lemma {:induction false} SetFresh(attrs: Attrs, name: string, value: string)
    requires name != "__proto__" && forall i | 0 <= i < |attrs| :: attrs[i].0 != name
    ensures SetAttr(attrs, name, value) == attrs + [(name, value)]
  {
    if attrs != [] {
      SetFresh(attrs[1..], name, value);
      assert attrs == [attrs[0]] + attrs[1..];
    }
  }

  predicate EndsTag(s: string) {
    s != "" && (s[0] == '>' || s[0] == '/')
  }

  lemma {:induction false} ReadAttrs(done: Attrs, attrs: Attrs, rest: string)
    requires NormalAttrs(done + attrs) && EndsTag(rest)
    ensures ParseAttrs(PrintAttrs(attrs) + rest, done) == (done + attrs, rest)
    decreases |attrs|
  {
    hide NextAttr, PrintAttr, IsAttrName;
    if attrs == [] {
      assert "" + rest == rest && done + [] == done;
      NoMoreAttrs(rest);
    } else {
      var a, all := attrs[0], done + attrs;
      assert all[|done|] == a;
      var tail := PrintAttrs(attrs[1..]) + rest;
      assert PrintAttrs(attrs) + rest == PrintAttr(a) + tail;
      ReadAttr(a, tail);
      NameNotProto(a.0);
      assert forall i | 0 <= i < |done| :: all[i] == done[i];
      SetFresh(done, a.0, a.1);
      assert done + [a] + attrs[1..] == all;
      ReadAttrs(done + [a], attrs[1..], rest);
    }
  }

  lemma NameNotProto(name: string)
    requires IsAttrName(name)
    ensures name != "__proto__"
  {
  }

  lemma NoMoreAttrs(rest: string)
    requires EndsTag(rest)
    ensures NextAttr(rest) == NoAttr(rest)
  {
    hide IsSpace;
    PlainChars();
    NoSpace(rest);
  }

  // ---------- tags ----------

  lemma ReadTagName(tag: string, rest: string)
    requires IsTagName(tag) && rest != "" && (rest[0] == ' ' || rest[0] == '>' || rest[0] == '/')
    ensures TagLength(tag + rest) == |tag| && Lower(tag) == tag
    ensures (tag + rest)[..|tag|] == tag && (tag + rest)[|tag|..] == rest
  {
    PlainChars();
    LowerName(tag);
    if tag == "" {
      assert tag + rest == rest;
    } else {
      SpanStops(IsTagChar, tag, rest);
    }
  }

  lemma {:induction false} AttrsThenEnd(attrs: Attrs, rest: string)
    requires EndsTag(rest)
    ensures var s := PrintAttrs(attrs) + rest; s != "" && s[0] == if attrs == [] then rest[0] else ' '
  {
  }

  lemma StartTagParts(s: string, p: string, n: nat)
    requires s == ['<'] + p && p != "" && p[0] != '/' && p[0] != '!' && TagLength(p) == n
    ensures ParseTag(s) == FinishTag(Lower(p[..n]), p[n..])
  {
    hide TagLength, Lower, FinishTag;
    assert s[1..] == p;
  }

  lemma ReadStart(tag: string, attrs: Attrs, end: string)
    requires IsTagName(tag) && NormalAttrs(attrs) && EndsTag(end) && (tag != "" || attrs != [] || end[0] == '>')
    ensures ParseTag("<" + tag + PrintAttrs(attrs) + end) ==
            var selfClosing := end[0] == '/';
            (if selfClosing || IsVoidTag(tag) then VoidTag(tag, attrs) else OpenTag(tag, attrs),
             Drop1(if selfClosing then end[1..] else end))
  {
    hide NormalAttrs, IsVoidTag, TagLength, ParseAttrs, ParseTag, Lower, PrintAttrs;
    var a := PrintAttrs(attrs) + end;
    AttrsThenEnd(attrs, end);
    ReadTagName(tag, a);
    var p := tag + a;
    assert p[0] == if tag == "" then a[0] else tag[0];
    StartTagParts(['<'] + p, p, |tag|);
    assert ['<'] + p == "<" + tag + PrintAttrs(attrs) + end;
    assert [] + attrs == attrs;
    ReadAttrs([], attrs, end);
  }

  lemma ReadEnd(tag: string, rest: string)
    requires IsTagName(tag)
    ensures ParseTag("</" + tag + ">" + rest) == (CloseTag(tag), rest)
  {
    hide TagLength, Lower, IsTagName, AfterBang, FinishTag, CloseLength;
    var c := ['>'] + rest;
    var q := tag + c;
    var s := ['<', '/'] + q;
    assert s == "</" + tag + ">" + rest;
    ReadTagName(tag, c);
    CloseHere(rest);
    CloseTagParts(s, q, |tag|);
    assert q[..|tag|] == tag && q[|tag|..] == c;
  }

  lemma CloseHere(rest: string)
    ensures CloseLength(['>'] + rest) == 1 && (['>'] + rest)[1..] == rest
  {
  }

  lemma CloseTagParts(s: string, q: string, n: nat)
    requires s == ['<', '/'] + q && TagLength(q) == n && n <= |q|
    ensures ParseTag(s) == (CloseTag(Lower(q[..n])), q[n..][CloseLength(q[n..])..])
  {
    hide TagLength, Lower, AfterBang, FinishTag, CloseLength;
    var p := s[1..];
    assert p == ['/'] + q && p[1..] == q;
  }

  // ---------- nodes ----------

  /** Text ends at the next tag or at the end of the input. */
  predicate Delimited(s: string) {
    s == "" || s[0] == '<'
  }

  lemma ReadText(text: string, rest: string, stack: seq<Frame>)
    requires text != "" && '<' !in text && Delimited(rest) && stack != []
    ensures Round(text + rest, stack) == (Append(stack, TextNode(text)), rest)
  {
    hide Append;
    assert forall i | 0 <= i < |text| :: text[i] in text;
    SpanStops(NotOpening, text, rest);
    var s := text + rest;
    assert s[0] == text[0] && s[..|text|] == text && s[|text|..] == rest;
  }

  function AppendAll(stack: seq<Frame>, nodes: seq<Tree>): (r: seq<Frame>)
    requires stack != []
    ensures |r| == |stack|
  {
    var top := stack[|stack| - 1];
    stack[|stack| - 1 := top.(children := top.children + nodes)]
  }

  lemma AppendOneMore(stack: seq<Frame>, node: Tree, nodes: seq<Tree>)
    requires stack != []
    ensures AppendAll(Append(stack, node), nodes) == AppendAll(stack, [node] + nodes)
  {
    var top := stack[|stack| - 1];
    assert top.children + [node] + nodes == top.children + ([node] + nodes);
  }

  /** Opening an element, filling it and closing it appends it. */
  lemma OpenFillClose(stack: seq<Frame>, tag: string, attrs: Attrs, children: seq<Tree>)
    requires stack != []
    ensures Apply(AppendAll(stack + [Frame(tag, attrs, [])], children), CloseTag(tag)) ==
            Append(stack, Element(tag, attrs, children))
  {
    var deeper := stack + [Frame(tag, attrs, [])];
    var filled := AppendAll(deeper, children);
    assert [] + children == children;
    assert filled == stack + [Frame(tag, attrs, children)];
    assert FindOpen(filled, tag) == |stack|;
    assert filled[..|stack|] == stack;
    assert PopTo(filled, |stack|) == PopTo(Pop(filled), |stack|);
  }

  lemma StartsWithBracket(n: Tree, rest: string)
    requires !n.TextNode?
    ensures Delimited(Outer(n) + rest)
  {
  }

  lemma BuildOnce(s: string, stack: seq<Frame>, next: seq<Frame>, rest: string)
    requires s != "" && stack != [] && next != [] && Round(s, stack) == (next, rest)
    ensures Build(s, stack) == Build(rest, next)
  {
    hide Round;
  }

  lemma BuildTag(s: string, stack: seq<Frame>, token: Token, rest: string)
    requires s != "" && s[0] == '<' && stack != [] && ParseTag(s) == (token, rest)
    ensures Build(s, stack) == Build(rest, Apply(stack, token))
  {
    hide ParseTag, Apply, Build;
    BuildOnce(s, stack, Apply(stack, token), rest);
  }

  lemma {:induction false} BuildNode(n: Tree, rest: string, stack: seq<Frame>)
    requires Normal(n) && stack != [] && (n.TextNode? ==> Delimited(rest))
    ensures Build(Outer(n) + rest, stack) == Build(rest, Append(stack, n))
    decreases n, 1
  {
    hide Build, Round, ParseTag, Append, IsTagName, NormalAttrs, IsVoidTag, PrintAttrs;
    match n
    case TextNode(text) =>
      ReadText(text, rest, stack);
      BuildOnce(text + rest, stack, Append(stack, n), rest);
    case Void(tag, attrs) =>
      var end := "/>" + rest;
      ReadStart(tag, attrs, end);
      assert Outer(n) + rest == "<" + tag + PrintAttrs(attrs) + end;
      assert end[1..] == ">" + rest && Drop1(">" + rest) == rest;
      BuildTag(Outer(n) + rest, stack, VoidTag(tag, attrs), rest);
    case Element(tag, attrs, children) =>
      var close := "</" + tag + ">" + rest;
      var inside := Inner(children) + close;
      var end := ">" + inside;
      ReadStart(tag, attrs, end);
      assert Outer(n) + rest == "<" + tag + PrintAttrs(attrs) + end by { ElementText(n, rest); }
      assert Drop1(end) == inside by { assert end[1..] == inside; }
      var deeper := stack + [Frame(tag, attrs, [])];
      BuildTag(Outer(n) + rest, stack, OpenTag(tag, attrs), inside);
      BuildList(children, close, deeper);
      var filled := AppendAll(deeper, children);
      ReadEnd(tag, rest);
      BuildTag(close, filled, CloseTag(tag), rest);
      OpenFillClose(stack, tag, attrs, children);
  }

  lemma ElementText(n: Tree, rest: string)
    requires n.Element? && !IsVoidTag(n.tag)
    ensures Outer(n) + rest ==
            "<" + n.tag + PrintAttrs(n.attrs) + (">" + (Inner(n.children) + ("</" + n.tag + ">" + rest)))
  {
    hide Inner, PrintAttrs, IsVoidTag;
    var front := "<" + n.tag + PrintAttrs(n.attrs);
    assert Outer(n) == front + ">" + Inner(n.children) + "</" + n.tag + ">";
    var inner := Inner(n.children);
    var close := "</" + n.tag + ">";
    assert Outer(n) + rest == front + ">" + inner + close + rest by { assert close == "</" + n.tag + ">"; }
    assert front + ">" + inner + close + rest == front + (">" + (inner + (close + rest)));
  }

  lemma InnerCons(children: seq<Tree>, rest: string)
    requires children != []
    ensures Inner(children) + rest == Outer(children[0]) + (Inner(children[1..]) + rest)
  {
    hide Outer;
  }

  /** Text is followed by a tag, or by what follows the list. */
  lemma TextDelimited(children: seq<Tree>, rest: string)
    requires NormalList(children) && children != [] && children[0].TextNode? && Delimited(rest)
    ensures Delimited(Inner(children[1..]) + rest)
  {
    hide Outer, Normal;
    var tail := children[1..];
    if tail == [] {
      assert Inner(tail) + rest == rest;
    } else {
      InnerCons(tail, rest);
      StartsWithBracket(tail[0], Inner(tail[1..]) + rest);
    }
  }

  lemma {:induction false} BuildList(children: seq<Tree>, rest: string, stack: seq<Frame>)
    requires NormalList(children) && stack != [] && Delimited(rest)
    ensures Build(Inner(children) + rest, stack) == Build(rest, AppendAll(stack, children))
    decreases children, 0
  {
    hide Build, Append, Normal, Outer;
    if children == [] {
      assert Inner(children) + rest == rest;
      AppendNone(stack);
    } else {
      var n, tail := children[0], children[1..];
      var after := Inner(tail) + rest;
      InnerCons(children, rest);
      if n.TextNode? { TextDelimited(children, rest); }
      hide Inner;
      BuildNode(n, after, stack);
      BuildList(tail, rest, Append(stack, n));
      AppendOneMore(stack, n, tail);
      assert children == [n] + tail;
    }
  }

  lemma AppendNone(stack: seq<Frame>)
    requires stack != []
    ensures AppendAll(stack, []) == stack
  {
    var top := stack[|stack| - 1];
    assert top.children + [] == top.children;
  }

  /** Parsing the serialization of a normal-form document rebuilds the document. */
  lemma ParsePrint(doc: seq<Tree>)
    requires NormalList(doc)
    ensures Parse(Inner(doc)) == doc
  {
    hide Inner, NormalList;
    var s := Inner(doc);
    assert s + "" == s;
    BuildList(doc, "", [ROOT]);
    RootOnly(doc);
  }

  lemma RootOnly(doc: seq<Tree>)
    ensures var stack := AppendAll([ROOT], doc);
            Build("", stack) == stack && PopTo(stack, 1) == stack && stack[0].children == doc
  {
    assert [] + doc == doc;
  }

  /** Serializing a document and tokenizing the text links up nodes that stand for what the text
      parses to, and so for the document itself when it is in normal form. */
  method PrintThenTokenize(doc: seq<Tree>) returns (nodes: HtmlTree.Nodes)
    ensures HtmlTree.StandsFor(nodes, Parse(Inner(doc)))
    ensures NormalList(doc) ==> HtmlTree.StandsFor(nodes, doc)
  {
    hide NormalList, Parse;
    nodes := HtmlTree.Tokenize(Inner(doc));
    if NormalList(doc) { ParsePrint(doc); }
  }
}
