/** The `k6/html` tokenizer as a function of the text still to be read, and the serializer. */
module HtmlSyntax {
  import opened Text

  type Attrs = seq<(string, string)>

  datatype Tree =
    | Element(tag: string, attrs: Attrs, children: seq<Tree>)
    | Void(tag: string, attrs: Attrs)
    | TextNode(text: string)

  // ---------- character classes ----------

  /** JavaScript's `\s`. */
  predicate IsSpace(c: char) {
    c == '\U{FEFF}' || (IsWhitespace(c) && c != '\U{0085}')
  }

  predicate IsLetter(c: char) {
    'a' <= c <= 'z' || 'A' <= c <= 'Z'
  }

  predicate IsDigit(c: char) {
    '0' <= c <= '9'
  }

  predicate IsTagChar(c: char) {
    IsLetter(c) || IsDigit(c)
  }

  predicate IsNameStart(c: char) {
    IsLetter(c) || c == '_' || c == ':'
  }

  predicate IsNameChar(c: char) {
    IsNameStart(c) || IsDigit(c) || c == '.' || c == '-'
  }

  predicate IsBareChar(c: char) {
    !IsSpace(c) && c != '>'
  }

  /** The longest stretch at the front whose characters all satisfy `p`. */
  function Span(p: char -> bool, s: string): (n: nat)
    ensures n <= |s| && (forall i | 0 <= i < n :: p(s[i])) && (n < |s| ==> !p(s[n]))
  {
    if s == "" || !p(s[0]) then 0 else 1 + Span(p, s[1..])
  }

  function SkipWs(s: string): (t: string)
    ensures |t| <= |s| && (t == "" || !IsSpace(t[0]))
  {
    if s != "" && IsSpace(s[0]) then SkipWs(s[1..]) else s
  }

  /** `/^[a-zA-Z][a-zA-Z0-9]*` and `/^[a-zA-Z_:][a-zA-Z0-9_:.-]*`; zero when there is no match. */
  function TagLength(s: string): (n: nat)
    ensures n <= |s|
  {
    if s == "" || !IsLetter(s[0]) then 0 else Span(IsTagChar, s)
  }

  function NameLength(s: string): (n: nat)
    ensures n <= |s|
  {
    if s == "" || !IsNameStart(s[0]) then 0 else Span(IsNameChar, s)
  }

  /** `/^[^>]*>/`; zero when there is no `>`. */
  function CloseLength(s: string): (n: nat)
    ensures n <= |s|
  {
    if IndexOf(s, '>') < |s| then IndexOf(s, '>') + 1 else 0
  }

  // ---------- attributes ----------

  /** `attrs[name] = value`: an existing name keeps its place; assigning a string to `__proto__` does nothing. */
  function SetAttr(attrs: Attrs, name: string, value: string): (r: Attrs) {
    if name == "__proto__" then attrs
    else if attrs == [] then [(name, value)]
    else if attrs[0].0 == name then [(name, value)] + attrs[1..]
    else [attrs[0]] + SetAttr(attrs[1..], name, value)
  }

  /** The value after an `=`, and what is left.  At the end of the input the step back lands on
      the last character before it. */
  function AttrValue(s: string): (r: (string, string))
    requires s != "" && s[0] == '='
    ensures |r.1| <= |s|
  {
    var t := SkipWs(s[1..]);
    if t == "" then
      var back := s[|s| - 1..];
      var n := Span(IsBareChar, back);
      (back[..n], back[n..])
    else if t[0] == '"' || t[0] == '\'' then
      var u := t[1..];
      var i := IndexOf(u, t[0]);
      if i < |u| then (u[..i], u[i + 1..]) else (u, u)
    else
      var n := Span(IsBareChar, t);
      (t[..n], t[n..])
  }

  datatype AttrStep = NoAttr(rest: string) | OneAttr(name: string, value: string, rest: string)

  function NextAttr(s: string): (a: AttrStep)
    ensures |a.rest| <= |s|
    ensures a.OneAttr? ==> |a.rest| < |s|
  {
    var t := SkipWs(s);
    var n := NameLength(t);
    if t == "" || t[0] == '>' || t[0] == '/' || n == 0 then NoAttr(t)
    else
      var u := SkipWs(t[n..]);
      if u != "" && u[0] == '=' then
        var (v, rest) := AttrValue(u);
        OneAttr(Lower(t[..n]), v, rest)
      else OneAttr(Lower(t[..n]), "", u)
  }

  function ParseAttrs(s: string, attrs: Attrs): (r: (Attrs, string))
    ensures |r.1| <= |s|
    decreases |s|
  {
    if s == "" then (attrs, s)
    else match NextAttr(s)
      case NoAttr(rest) => (attrs, rest)
      case OneAttr(name, value, rest) => ParseAttrs(rest, SetAttr(attrs, name, value))
  }

  // ---------- tags ----------

  /** The void elements; `constructor` is looked up on the prototype and found there. */
  predicate IsVoidTag(tag: string) {
    tag in {"area", "base", "br", "col", "embed", "hr", "img", "input", "link", "meta", "param", "source", "track",
            "wbr", "constructor"}
  }

  datatype Token =
    | CloseTag(tag: string)
    | Comment
    | VoidTag(tag: string, attrs: Attrs)
    | OpenTag(tag: string, attrs: Attrs)

  /** Position of `-->`, or the length. */
  function CommentEnd(s: string): (i: nat)
    ensures i <= |s| && (i < |s| ==> i + 3 <= |s|)
  {
    if |s| < 3 then |s|
    else if s[..3] == "-->" then 0
    else var i := CommentEnd(s[1..]); if i == |s| - 1 then |s| else i + 1
  }

  predicate OpensComment(q: string) {
    |q| >= 2 && q[0] == '-' && q[1] == '-'
  }

  /** The rest after `<!`: past `-->` for a comment, all of it when that is missing, and past
      the next `>` for any other declaration. */
  function AfterBang(q: string): (r: string)
    ensures |r| <= |q|
  {
    if OpensComment(q) then
      var body := q[2..];
      var i := CommentEnd(body);
      if i == |body| then "" else body[i + 3..]
    else q[CloseLength(q)..]
  }

  function Drop1(s: string): (t: string)
    ensures |t| <= |s|
  {
    if s == "" then s else s[1..]
  }

  /** The rest of a tag after its name. */
  function FinishTag(tag: string, s: string): (r: (Token, string))
    ensures |r.1| <= |s|
  {
    var (attrs, t) := ParseAttrs(s, []);
    var selfClosing := t != "" && t[0] == '/';
    var u := Drop1(if selfClosing then t[1..] else t);
    (if selfClosing || IsVoidTag(tag) then VoidTag(tag, attrs) else OpenTag(tag, attrs), u)
  }

  function ParseTag(s: string): (r: (Token, string))
    requires s != "" && s[0] == '<'
    ensures |r.1| < |s|
  {
    var p := s[1..];
    if p != "" && p[0] == '/' then
      var q := p[1..];
      var n := TagLength(q);
      (CloseTag(Lower(q[..n])), q[n..][CloseLength(q[n..])..])
    else if p != "" && p[0] == '!' then
      (Comment, AfterBang(p[1..]))
    else
      var n := TagLength(p);
      FinishTag(Lower(p[..n]), p[n..])
  }

  // ---------- the open elements ----------

  /** An open element and the children it has so far; the bottom of the stack is the document. */
  datatype Frame = Frame(tag: string, attrs: Attrs, children: seq<Tree>)

  const ROOT := Frame("#document", [], [])

  function Append(stack: seq<Frame>, node: Tree): (r: seq<Frame>)
    requires stack != []
    ensures |r| == |stack|
  {
    var top := stack[|stack| - 1];
    stack[|stack| - 1 := top.(children := top.children + [node])]
  }

  /** Close the innermost element. */
  function Pop(stack: seq<Frame>): (r: seq<Frame>)
    requires |stack| >= 2
    ensures |r| == |stack| - 1
  {
    var top := stack[|stack| - 1];
    Append(stack[..|stack| - 1], Element(top.tag, top.attrs, top.children))
  }

  /** Close elements until `n` frames are left. */
  function PopTo(stack: seq<Frame>, n: nat): (r: seq<Frame>)
    requires 1 <= n <= |stack|
    ensures |r| == n
    decreases |stack|
  {
    if |stack| == n then stack else PopTo(Pop(stack), n)
  }

  /** The innermost open element with the given tag, or zero. */
  function FindOpen(stack: seq<Frame>, tag: string): (i: nat)
    ensures i < |stack| || i == 0
    ensures i > 0 ==> stack[i].tag == tag && forall j | i < j < |stack| :: stack[j].tag != tag
    ensures i == 0 ==> forall j | 0 < j < |stack| :: stack[j].tag != tag
  {
    if |stack| <= 1 then 0
    else if stack[|stack| - 1].tag == tag then |stack| - 1
    else FindOpen(stack[..|stack| - 1], tag)
  }

  function CloseElement(stack: seq<Frame>, tag: string): (r: seq<Frame>)
    requires stack != []
    ensures r != []
  {
    var i := FindOpen(stack, tag);
    if i == 0 then stack else PopTo(stack, i)
  }

  function Apply(stack: seq<Frame>, token: Token): (r: seq<Frame>)
    requires stack != []
    ensures r != []
  {
    match token
    case Comment => stack
    case OpenTag(tag, attrs) => stack + [Frame(tag, attrs, [])]
    case VoidTag(tag, attrs) => Append(stack, Void(tag, attrs))
    case CloseTag(tag) => CloseElement(stack, tag)
  }

  predicate NotOpening(c: char) {
    c != '<'
  }

  /** One round of the main loop: the new stack and what is left to read. */
  function Round(s: string, stack: seq<Frame>): (r: (seq<Frame>, string))
    requires s != "" && stack != []
    ensures |r.1| < |s| && r.0 != []
  {
    if s[0] == '<' then
      var (token, rest) := ParseTag(s);
      (Apply(stack, token), rest)
    else
      var n := Span(NotOpening, s);
      (Append(stack, TextNode(s[..n])), s[n..])
  }

  function Build(s: string, stack: seq<Frame>): (r: seq<Frame>)
    requires stack != []
    ensures r != []
    decreases |s|
  {
    if s == "" then stack else
      var (next, rest) := Round(s, stack);
      Build(rest, next)
  }

  /** The children of the document. */
  function Parse(src: string): (doc: seq<Tree>) {
    PopTo(Build(src, [ROOT]), 1)[0].children
  }

  // ---------- the serializer ----------

  function EscapeQuotes(s: string): (t: string) {
    if s == "" then "" else (if s[0] == '"' then "&quot;" else [s[0]]) + EscapeQuotes(s[1..])
  }

  function PrintAttr(a: (string, string)): (s: string) {
    " " + a.0 + "=\"" + EscapeQuotes(a.1) + "\""
  }

  function PrintAttrs(attrs: Attrs): (s: string) {
    if attrs == [] then "" else PrintAttr(attrs[0]) + PrintAttrs(attrs[1..])
  }

  function Outer(n: Tree): (s: string)
    decreases n, 1
  {
    match n
    case TextNode(text) => text
    case Void(tag, attrs) => "<" + tag + PrintAttrs(attrs) + "/>"
    case Element(tag, attrs, children) =>
      if IsVoidTag(tag) then "<" + tag + PrintAttrs(attrs) + "/>"
      else "<" + tag + PrintAttrs(attrs) + ">" + Inner(children) + "</" + tag + ">"
  }

  function Inner(children: seq<Tree>): (s: string)
    decreases children, 0
  {
    if children == [] then "" else Outer(children[0]) + Inner(children[1..])
  }

  // ---------- documents in normal form ----------

  predicate IsTag(tag: string) {
    tag != "" && 'a' <= tag[0] <= 'z' && forall i | 0 <= i < |tag| :: 'a' <= tag[i] <= 'z' || IsDigit(tag[i])
  }

  /** A `<` with no letter after it opens an element without a name. */
  predicate IsTagName(tag: string) {
    tag == "" || IsTag(tag)
  }

  predicate IsAttrName(name: string) {
    && name != "" && name != "__proto__" && IsNameStart(name[0])
    && forall i | 0 <= i < |name| :: IsNameChar(name[i]) && !('A' <= name[i] <= 'Z')
  }

  predicate Named(attrs: Attrs) {
    && (forall i | 0 <= i < |attrs| :: IsAttrName(attrs[i].0))
    && (forall i, j | 0 <= i < j < |attrs| :: attrs[i].0 != attrs[j].0)
  }

  predicate Unquoted(attrs: Attrs) {
    forall i | 0 <= i < |attrs| :: '"' !in attrs[i].1
  }

  predicate NormalAttrs(attrs: Attrs) {
    Named(attrs) && Unquoted(attrs)
  }

  /** A void element without name and attributes would be written `</>`, which closes. */
  predicate Normal(n: Tree)
    decreases n, 1
  {
    match n
    case TextNode(text) => text != "" && '<' !in text
    case Void(tag, attrs) => IsTagName(tag) && NormalAttrs(attrs) && (tag != "" || attrs != [])
    case Element(tag, attrs, children) =>
      IsTagName(tag) && !IsVoidTag(tag) && NormalAttrs(attrs) && NormalList(children)
  }

  predicate NormalList(children: seq<Tree>)
    decreases children, 0
  {
    children == [] ||
    (Normal(children[0]) && NormalList(children[1..]) &&
     !(children[0].TextNode? && |children| > 1 && children[1].TextNode?))
  }
}
