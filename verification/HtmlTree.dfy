/** The linked tree the tokenizer builds: nodes with parent and child references, and the
    stack of open elements. */
module HtmlTree {
  import opened Text
  import opened HtmlSyntax

  datatype Kind = DocKind | ElementKind | VoidKind | TextKind

  /** Nodes refer to each other by the order in which they were created; the document is node 0. */
  type Ref = nat

  datatype Node = Node(kind: Kind, tag: string, attrs: Attrs, text: string, parent: Option<Ref>, children: seq<Ref>)

  type Nodes = seq<Node>

  const DOCUMENT := Node(DocKind, "#document", [], "", None, [])

  /** Create a node under `parent`. */
  function AddNode(nodes: Nodes, parent: Ref, node: Node): (r: Nodes)
    requires parent < |nodes|
    ensures |r| == |nodes| + 1
  {
    nodes[parent := nodes[parent].(children := nodes[parent].children + [|nodes|])]
    + [node.(parent := Some(parent), children := [])]
  }

  lemma AddNodeAt(nodes: Nodes, parent: Ref, node: Node)
    requires parent < |nodes|
    ensures var r := AddNode(nodes, parent, node);
            && r[|nodes|] == node.(parent := Some(parent), children := [])
            && r[parent] == nodes[parent].(children := nodes[parent].children + [|nodes|])
            && forall i | 0 <= i < |nodes| && i != parent :: r[i] == nodes[i]
  {
  }

  // ---------- shape ----------

  /** A node is listed under the node its `parent` names. */
  ghost predicate Listed(nodes: Nodes, i: Ref)
    requires i < |nodes|
  {
    && nodes[i].parent.Some? && nodes[i].parent.value < i
    && i in nodes[nodes[i].parent.value].children
  }

  /** A child list holds each child once, in order of creation, and each names this node its parent. */
  ghost predicate Owns(nodes: Nodes, p: Ref)
    requires p < |nodes|
  {
    var cs := nodes[p].children;
    && (forall j | 0 <= j < |cs| :: p < cs[j] < |nodes| && nodes[cs[j]].parent == Some(p))
    && (forall j, k | 0 <= j < k < |cs| :: cs[j] < cs[k])
  }

  /** Every node but the document appears exactly once, under the node its `parent` names. */
  ghost predicate Linked(nodes: Nodes) {
    && nodes != [] && nodes[0].kind == DocKind && nodes[0].parent == None && nodes[0].tag == "#document"
    && (forall i | 0 < i < |nodes| :: Listed(nodes, i))
    && (forall p | 0 <= p < |nodes| :: Owns(nodes, p))
  }

  ghost predicate IsLast(cs: seq<Ref>, c: Ref) {
    cs != [] && cs[|cs| - 1] == c
  }

  /** The `k`-th open element is the newest child of the one below it on the stack. */
  ghost predicate Step(nodes: Nodes, stack: seq<Ref>, k: nat)
    requires 0 < k < |stack| && forall i | 0 <= i < |stack| :: stack[i] < |nodes|
  {
    && nodes[stack[k]].kind == ElementKind && nodes[stack[k]].parent == Some(stack[k - 1])
    && IsLast(nodes[stack[k - 1]].children, stack[k])
  }

  /** The stack is a path from the document, each entry the parent of the next. */
  ghost predicate Path(nodes: Nodes, stack: seq<Ref>) {
    && stack != [] && stack[0] == 0
    && (forall k | 0 <= k < |stack| :: stack[k] < |nodes|)
    && (forall k | 0 < k < |stack| :: Step(nodes, stack, k))
  }

  lemma {:induction false} PathAscends(nodes: Nodes, stack: seq<Ref>, i: nat, j: nat)
    requires Linked(nodes) && Path(nodes, stack) && i < j < |stack|
    ensures stack[i] < stack[j]
    decreases j
  {
    assert Step(nodes, stack, j);
    assert stack[j] > 0 ==> Listed(nodes, stack[j]);
    if i < j - 1 { PathAscends(nodes, stack, i, j - 1); }
  }

  lemma AddListed(nodes: Nodes, parent: Ref, node: Node, i: Ref)
    requires parent < |nodes| && 0 < i <= |nodes| && (i < |nodes| ==> Listed(nodes, i))
    ensures Listed(AddNode(nodes, parent, node), i)
  {
    hide AddNode;
    AddNodeAt(nodes, parent, node);
    var r := AddNode(nodes, parent, node);
    if i == |nodes| {
      var cs := r[parent].children;
      assert cs[|cs| - 1] == i;
    }
  }

  lemma AddOwns(nodes: Nodes, parent: Ref, node: Node, p: Ref)
    requires parent < |nodes| && p <= |nodes| && (p < |nodes| ==> Owns(nodes, p))
    ensures Owns(AddNode(nodes, parent, node), p)
  {
    hide AddNode;
    AddNodeAt(nodes, parent, node);
  }

  lemma AddLinked(nodes: Nodes, parent: Ref, node: Node)
    requires Linked(nodes) && parent < |nodes|
    ensures Linked(AddNode(nodes, parent, node))
  {
    hide AddNode, Listed, Owns;
    AddNodeAt(nodes, parent, node);
    var r := AddNode(nodes, parent, node);
    forall i | 0 < i < |r| ensures Listed(r, i) { AddListed(nodes, parent, node, i); }
    forall p | 0 <= p < |r| ensures Owns(r, p) { AddOwns(nodes, parent, node, p); }
  }

  /** Adding under the innermost open element keeps the path; an element may join it. */
  lemma AddPath(nodes: Nodes, stack: seq<Ref>, node: Node)
    requires Linked(nodes) && Path(nodes, stack)
    ensures var r := AddNode(nodes, stack[|stack| - 1], node);
            Path(r, stack) && (node.kind == ElementKind ==> Path(r, stack + [|nodes|]))
  {
    hide AddNode, Linked;
    var top := stack[|stack| - 1];
    AddNodeAt(nodes, top, node);
    var r, longer := AddNode(nodes, top, node), stack + [|nodes|];
    forall k | 0 < k < |stack| ensures Step(r, stack, k) {
      assert Step(nodes, stack, k);
      PathAscends(nodes, stack, k - 1, |stack| - 1);
    }
    if node.kind == ElementKind {
      forall k | 0 < k < |longer| ensures Step(r, longer, k) {
        if k < |stack| { assert Step(r, stack, k); }
      }
    }
  }

  lemma PrefixPath(nodes: Nodes, stack: seq<Ref>, n: nat)
    requires Path(nodes, stack) && 1 <= n <= |stack|
    ensures Path(nodes, stack[..n])
  {
    forall k | 0 < k < n ensures Step(nodes, stack[..n], k) {
      assert Step(nodes, stack, k);
    }
  }

  // ---------- meaning ----------

  /** Closed nodes and the trees they stand for. */
  type Trees = map<Ref, Tree>

  ghost predicate Shows(node: Node, t: Tree, trees: Trees) {
    match t
    case TextNode(text) => node.kind == TextKind && node.text == text && node.children == []
    case Void(tag, attrs) => node.kind == VoidKind && node.tag == tag && node.attrs == attrs && node.children == []
    case Element(tag, attrs, kids) =>
      node.kind == ElementKind && node.tag == tag && node.attrs == attrs && ShowsList(node.children, kids, trees)
  }

  ghost predicate ShowsList(refs: seq<Ref>, kids: seq<Tree>, trees: Trees) {
    |refs| == |kids| && forall j | 0 <= j < |refs| :: refs[j] in trees && trees[refs[j]] == kids[j]
  }

  ghost predicate ClosedAt(nodes: Nodes, trees: Trees, i: Ref)
    requires i in trees
  {
    i < |nodes| && Shows(nodes[i], trees[i], trees)
  }

  /** The children of an open element that are closed: all but the next open one, if any. */
  ghost function ClosedChildren(cs: seq<Ref>, innermost: bool): (r: seq<Ref>) {
    if innermost || cs == [] then cs else cs[..|cs| - 1]
  }

  ghost predicate FrameAt(nodes: Nodes, stack: seq<Ref>, trees: Trees, frames: seq<Frame>, k: nat)
    requires k < |stack| == |frames| && stack[k] < |nodes|
  {
    var node := nodes[stack[k]];
    && stack[k] !in trees
    && frames[k].tag == node.tag && frames[k].attrs == node.attrs
    && ShowsList(ClosedChildren(node.children, k == |stack| - 1), frames[k].children, trees)
  }

  ghost predicate Meaning(nodes: Nodes, stack: seq<Ref>, trees: Trees, frames: seq<Frame>) {
    && |frames| == |stack|
    && (forall k | 0 <= k < |stack| :: stack[k] < |nodes|)
    && (forall i | i in trees :: ClosedAt(nodes, trees, i))
    && (forall k | 0 <= k < |stack| :: FrameAt(nodes, stack, trees, frames, k))
  }

  ghost predicate Good(nodes: Nodes, stack: seq<Ref>, trees: Trees, frames: seq<Frame>) {
    Linked(nodes) && Path(nodes, stack) && Meaning(nodes, stack, trees, frames)
  }

  lemma ShowsMore(node: Node, t: Tree, trees: Trees, id: Ref, u: Tree)
    requires Shows(node, t, trees) && id !in trees
    ensures Shows(node, t, trees[id := u])
  {
  }

  lemma ShowsListMore(refs: seq<Ref>, kids: seq<Tree>, trees: Trees, id: Ref, u: Tree)
    requires ShowsList(refs, kids, trees) && id !in trees
    ensures ShowsList(refs, kids, trees[id := u])
  {
  }

  lemma ShowsListAppend(refs: seq<Ref>, kids: seq<Tree>, trees: Trees, id: Ref)
    requires ShowsList(refs, kids, trees) && id in trees
    ensures ShowsList(refs + [id], kids + [trees[id]], trees)
  {
  }

  lemma PathDistinct(nodes: Nodes, stack: seq<Ref>, k: nat)
    requires Linked(nodes) && Path(nodes, stack) && k < |stack| - 1
    ensures stack[k] != stack[|stack| - 1]
  {
    hide Linked, Path;
    PathAscends(nodes, stack, k, |stack| - 1);
  }

  /** A text or void node appended under the innermost open element. */
  lemma AddLeaf(nodes: Nodes, stack: seq<Ref>, trees: Trees, frames: seq<Frame>, node: Node, t: Tree)
    requires Good(nodes, stack, trees, frames)
    requires !t.Element? && Shows(node, t, map[])
    ensures Good(AddNode(nodes, stack[|stack| - 1], node), stack, trees[|nodes| := t], Append(frames, t))
  {
    var top, id := stack[|stack| - 1], |nodes|;
    AddLinked(nodes, top, node);
    AddPath(nodes, stack, node);
    LeafMeaning(nodes, stack, trees, frames, node, t);
  }

  lemma LeafMeaning(nodes: Nodes, stack: seq<Ref>, trees: Trees, frames: seq<Frame>, node: Node, t: Tree)
    requires Good(nodes, stack, trees, frames)
    requires !t.Element? && Shows(node, t, map[])
    ensures Meaning(AddNode(nodes, stack[|stack| - 1], node), stack, trees[|nodes| := t], Append(frames, t))
  {
    hide AddNode, Linked, ShowsList;
    var top, id := stack[|stack| - 1], |nodes|;
    AddNodeAt(nodes, top, node);
    var r, trees', frames' := AddNode(nodes, top, node), trees[id := t], Append(frames, t);
    forall i | i in trees ensures i != top && i != id {
      assert ClosedAt(nodes, trees, i) && FrameAt(nodes, stack, trees, frames, |stack| - 1);
    }
    forall i | i in trees' ensures ClosedAt(r, trees', i) {
      if i != id {
        assert ClosedAt(nodes, trees, i);
        hide Shows;
        ShowsMore(nodes[i], trees[i], trees, id, t);
      }
    }
    forall k | 0 <= k < |stack| ensures FrameAt(r, stack, trees', frames', k) {
      assert FrameAt(nodes, stack, trees, frames, k);
      var cs := ClosedChildren(nodes[stack[k]].children, k == |stack| - 1);
      ShowsListMore(cs, frames[k].children, trees, id, t);
      if k < |stack| - 1 {
        PathDistinct(nodes, stack, k);
      } else {
        ShowsListAppend(cs, frames[k].children, trees', id);
      }
    }
  }

  /** An element opened under the innermost open element. */
  lemma OpenElement(nodes: Nodes, stack: seq<Ref>, trees: Trees, frames: seq<Frame>, node: Node)
    requires Good(nodes, stack, trees, frames) && node.kind == ElementKind
    ensures Good(AddNode(nodes, stack[|stack| - 1], node), stack + [|nodes|], trees,
                 frames + [Frame(node.tag, node.attrs, [])])
  {
    var top := stack[|stack| - 1];
    AddLinked(nodes, top, node);
    AddPath(nodes, stack, node);
    OpenMeaning(nodes, stack, trees, frames, node);
  }

  lemma OpenMeaning(nodes: Nodes, stack: seq<Ref>, trees: Trees, frames: seq<Frame>, node: Node)
    requires Good(nodes, stack, trees, frames) && node.kind == ElementKind
    ensures Meaning(AddNode(nodes, stack[|stack| - 1], node), stack + [|nodes|], trees,
                    frames + [Frame(node.tag, node.attrs, [])])
  {
    hide AddNode, Linked, Shows;
    var top, id := stack[|stack| - 1], |nodes|;
    AddNodeAt(nodes, top, node);
    var r, stack', frames' := AddNode(nodes, top, node), stack + [id], frames + [Frame(node.tag, node.attrs, [])];
    forall i | i in trees ensures i != top && i != id && ClosedAt(r, trees, i) {
      assert ClosedAt(nodes, trees, i) && FrameAt(nodes, stack, trees, frames, |stack| - 1);
    }
    forall k | 0 <= k < |stack'| ensures FrameAt(r, stack', trees, frames', k) {
      if k < |stack| - 1 {
        assert FrameAt(nodes, stack, trees, frames, k);
        PathDistinct(nodes, stack, k);
      } else if k == |stack| - 1 {
        assert FrameAt(nodes, stack, trees, frames, k);
        var cs := nodes[top].children + [id];
        assert cs[..|cs| - 1] == nodes[top].children;
      }
    }
  }

  /** The innermost open element closed. */
  lemma CloseInnermost(nodes: Nodes, stack: seq<Ref>, trees: Trees, frames: seq<Frame>) returns (trees': Trees)
    requires Good(nodes, stack, trees, frames) && |stack| >= 2
    ensures Good(nodes, stack[..|stack| - 1], trees', Pop(frames))
  {
    var n := |stack| - 1;
    var f := frames[n];
    trees' := trees[stack[n] := Element(f.tag, f.attrs, f.children)];
    PrefixPath(nodes, stack, n);
    CloseMeaning(nodes, stack, trees, frames, trees');
  }

  lemma CloseMeaning(nodes: Nodes, stack: seq<Ref>, trees: Trees, frames: seq<Frame>, trees': Trees)
    requires Good(nodes, stack, trees, frames) && |stack| >= 2
    requires var f := frames[|stack| - 1]; trees' == trees[stack[|stack| - 1] := Element(f.tag, f.attrs, f.children)]
    ensures Meaning(nodes, stack[..|stack| - 1], trees', Pop(frames))
  {
    hide Linked, ShowsList;
    var n := |stack| - 1;
    var top, f := stack[n], frames[n];
    var t := Element(f.tag, f.attrs, f.children);
    var stack', frames' := stack[..n], Pop(frames);
    assert FrameAt(nodes, stack, trees, frames, n) && Step(nodes, stack, n);
    forall i | i in trees' ensures ClosedAt(nodes, trees', i) {
      if i != top {
        assert ClosedAt(nodes, trees, i);
        hide Shows;
        ShowsMore(nodes[i], trees[i], trees, top, t);
      } else {
        ShowsListMore(nodes[top].children, f.children, trees, top, t);
      }
    }
    forall k | 0 <= k < n ensures FrameAt(nodes, stack', trees', frames', k) {
      assert FrameAt(nodes, stack, trees, frames, k);
      PathDistinct(nodes, stack, k);
      var cs := nodes[stack[k]].children;
      ShowsListMore(ClosedChildren(cs, false), frames[k].children, trees, top, t);
      if k == n - 1 {
        assert cs == cs[..|cs| - 1] + [top];
        ShowsListAppend(cs[..|cs| - 1], frames[k].children, trees', top);
      }
    }
  }

  lemma {:induction false} CloseTo(nodes: Nodes, stack: seq<Ref>, trees: Trees, frames: seq<Frame>, n: nat)
    returns (trees': Trees)
    requires Good(nodes, stack, trees, frames) && 1 <= n <= |stack| == |frames|
    ensures Good(nodes, stack[..n], trees', PopTo(frames, n))
    decreases |stack|
  {
    hide Good;
    if |stack| == n {
      trees' := trees;
      assert stack[..n] == stack;
    } else {
      var inner := CloseInnermost(nodes, stack, trees, frames);
      trees' := CloseTo(nodes, stack[..|stack| - 1], inner, Pop(frames), n);
      assert stack[..|stack| - 1][..n] == stack[..n];
    }
  }

  // ---------- a node stands for a tree ----------

  ghost predicate Represents(nodes: Nodes, i: Ref, t: Tree)
    decreases t, 1
  {
    i < |nodes| &&
    match t
    case TextNode(text) => nodes[i].kind == TextKind && nodes[i].text == text && nodes[i].children == []
    case Void(tag, attrs) =>
      nodes[i].kind == VoidKind && nodes[i].tag == tag && nodes[i].attrs == attrs && nodes[i].children == []
    case Element(tag, attrs, kids) =>
      && nodes[i].kind == ElementKind && nodes[i].tag == tag && nodes[i].attrs == attrs
      && RepresentsList(nodes, nodes[i].children, kids)
  }

  ghost predicate RepresentsList(nodes: Nodes, refs: seq<Ref>, kids: seq<Tree>)
    decreases kids, 0
  {
    && |refs| == |kids|
    && (kids == [] || (Represents(nodes, refs[0], kids[0]) && RepresentsList(nodes, refs[1..], kids[1..])))
  }

  lemma {:induction false} ClosedRepresents(nodes: Nodes, trees: Trees, i: Ref)
    requires i in trees && forall c | c in trees :: ClosedAt(nodes, trees, c)
    ensures Represents(nodes, i, trees[i])
    decreases trees[i], 1
  {
    assert ClosedAt(nodes, trees, i);
    match trees[i]
    case Element(_, _, kids) => ClosedList(nodes, trees, nodes[i].children, kids);
    case _ =>
  }

  lemma {:induction false} ClosedList(nodes: Nodes, trees: Trees, refs: seq<Ref>, kids: seq<Tree>)
    requires ShowsList(refs, kids, trees) && forall c | c in trees :: ClosedAt(nodes, trees, c)
    ensures RepresentsList(nodes, refs, kids)
    decreases kids, 0
  {
    if kids != [] {
      assert trees[refs[0]] == kids[0];
      ClosedRepresents(nodes, trees, refs[0]);
      ClosedList(nodes, trees, refs[1..], kids[1..]);
    }
  }

  // ---------- the tokenizer ----------

  class Tokenizer {
    const src: string
    var pos: nat
    var nodes: Nodes
    var stack: seq<Ref>
    ghost var trees: Trees
    ghost var frames: seq<Frame>

    constructor (src: string)
      ensures this.src == src && pos == 0 && frames == [ROOT] && Valid()
    {
      this.src := src;
      pos := 0;
      nodes := [DOCUMENT];
      stack := [0];
      trees := map[];
      frames := [ROOT];
    }

    /** The nodes form one linked tree, the stack is a path from its root, and together
        they stand for the abstract stack of open elements. */
    ghost predicate Valid()
      reads this
    {
      pos <= |src| && Good(nodes, stack, trees, frames)
    }

    function Rest(): (s: string)
      requires pos <= |src|
      reads this`pos
    {
      src[pos..]
    }

    method SkipWhitespace()
      requires pos <= |src|
      modifies this`pos
      ensures old(pos) <= pos <= |src| && Rest() == SkipWs(old(Rest()))
    {
      hide IsSpace;
      while pos < |src| && IsSpace(src[pos])
        invariant old(pos) <= pos <= |src| && SkipWs(Rest()) == SkipWs(old(Rest()))
      {
        assert src[pos..][1..] == src[pos + 1..];
        pos := pos + 1;
      }
    }

    method Take(n: nat) returns (text: string)
      requires pos + n <= |src|
      modifies this`pos
      ensures pos == old(pos) + n && text == old(Rest())[..n] && Rest() == old(Rest())[n..]
    {
      text := src[pos..][..n];
      pos := pos + n;
    }

    /** Up to the closing quote, or the whole rest without moving when there is none. */
    method TakeQuoted(q: char) returns (value: string)
      requires pos <= |src|
      modifies this`pos
      ensures old(pos) <= pos <= |src|
      ensures var u := old(Rest()); var i := IndexOf(u, q);
              (value, Rest()) == if i < |u| then (u[..i], u[i + 1..]) else (u, u)
    {
      ghost var u := Rest();
      var end := IndexOf(src[pos..], q);
      if pos + end < |src| {
        value := Take(end);
        pos := pos + 1;
        assert Rest() == u[end..][1..] == u[end + 1..];
      } else {
        value := src[pos..];
      }
    }

    /** The value of an attribute, from its `=` on. */
    method ParseValue() returns (value: string)
      requires pos < |src| && src[pos] == '='
      modifies this`pos
      ensures pos <= |src| && (value, Rest()) == AttrValue(old(Rest()))
    {
      hide SkipWs, IsBareChar, Span, IndexOf;
      ghost var s := Rest();
      pos := pos + 1;
      assert s[1..] == Rest();
      SkipWhitespace();
      ghost var t := Rest();
      if pos < |src| && (src[pos] == '"' || src[pos] == '\'') {
        var q := src[pos];
        pos := pos + 1;
        assert Rest() == t[1..];
        value := TakeQuoted(q);
      } else {
        // Reading the opening character moves only inside the input; stepping back always moves.
        if pos < |src| { pos := pos + 1; }
        pos := pos - 1;
        assert Rest() == if t == "" then s[|s| - 1..] else t;
        value := Take(Span(IsBareChar, src[pos..]));
      }
    }

    /** One attribute, if there is one: its name, and its value after a `=`. */
    method ParseAttribute() returns (found: bool, name: string, value: string)
      requires pos <= |src|
      modifies this`pos
      ensures old(pos) <= pos <= |src|
      ensures NextAttr(old(Rest())) == if found then OneAttr(name, value, Rest()) else NoAttr(Rest())
    {
      hide AttrValue, NameLength, SkipWs, Lower;
      ghost var s := Rest();
      SkipWhitespace();
      found, name, value := false, "", "";
      if pos == |src| || src[pos] == '>' || src[pos] == '/' { return; }
      var n := NameLength(src[pos..]);
      if n == 0 { return; }
      name := Lower(src[pos..][..n]);
      assert src[pos..][n..] == src[pos + n..];
      pos := pos + n;
      found := true;
      SkipWhitespace();
      if pos < |src| && src[pos] == '=' {
        value := ParseValue();
      }
      assert NextAttr(s) == OneAttr(name, value, Rest());
      assert |Rest()| < |s|;
    }

    method ParseAttributes() returns (attrs: Attrs)
      requires pos <= |src|
      modifies this`pos
      ensures old(pos) <= pos <= |src| && (attrs, Rest()) == ParseAttrs(old(Rest()), [])
    {
      hide NextAttr, SetAttr;
      attrs := [];
      while pos < |src|
        invariant old(pos) <= pos <= |src|
        invariant ParseAttrs(Rest(), attrs) == ParseAttrs(old(Rest()), [])
        decreases |src| - pos
      {
        ghost var s := Rest();
        var found, name, value := ParseAttribute();
        if !found { return; }
        assert |Rest()| < |s|;
        attrs := SetAttr(attrs, name, value);
      }
    }

    /** The text up to and including the next `>`, if there is one. */
    method SkipPast()
      requires pos <= |src|
      modifies this`pos
      ensures pos <= |src| && Rest() == old(Rest())[CloseLength(old(Rest()))..]
    {
      var _ := Take(CloseLength(src[pos..]));
    }

    method ParseTagToken() returns (token: Token)
      requires pos < |src| && src[pos] == '<'
      modifies this`pos
      ensures old(pos) < pos <= |src| && (token, Rest()) == ParseTag(old(Rest()))
    {
      hide TagLength, CloseLength, ParseAttrs, IsVoidTag, AfterBang, Lower;
      ghost var s := Rest();
      pos := pos + 1;
      ghost var p := Rest();
      assert s[1..] == p;
      if pos < |src| && src[pos] == '/' {
        pos := pos + 1;
        assert Rest() == p[1..];
        var tag := Take(TagLength(src[pos..]));
        SkipPast();
        token := CloseTag(Lower(tag));
      } else if pos < |src| && src[pos] == '!' {
        pos := pos + 1;
        assert Rest() == p[1..];
        token := Comment;
        SkipComment();
      } else {
        var tag := Take(TagLength(src[pos..]));
        token := FinishTagToken(Lower(tag));
      }
      assert |Rest()| < |s|;
    }

    method SkipComment()
      requires pos <= |src|
      modifies this`pos
      ensures pos <= |src| && Rest() == AfterBang(old(Rest()))
    {
      hide CloseLength, CommentEnd;
      if OpensComment(src[pos..]) {
        ghost var q := Rest();
        pos := pos + 2;
        ghost var body := Rest();
        assert body == q[2..];
        var ci := CommentEnd(src[pos..]);
        if pos + ci < |src| {
          var _ := Take(ci + 3);
        } else {
          pos := |src|;
        }
      } else {
        SkipPast();
      }
    }

    /** Attributes, an optional `/` and one more character, normally `>`. */
    method FinishTagToken(tag: string) returns (token: Token)
      requires pos <= |src|
      modifies this`pos
      ensures pos <= |src| && (token, Rest()) == FinishTag(tag, old(Rest()))
    {
      hide ParseAttrs, IsVoidTag;
      var attrs := ParseAttributes();
      ghost var t := Rest();
      var selfClosing := false;
      if pos < |src| && src[pos] == '/' {
        pos := pos + 1;
        selfClosing := true;
        assert Rest() == t[1..];
      }
      ghost var u := Rest();
      if pos < |src| {
        pos := pos + 1;
        assert Rest() == u[1..];
      }
      token := if selfClosing || IsVoidTag(tag) then VoidTag(tag, attrs) else OpenTag(tag, attrs);
    }

    method AddText(text: string)
      requires Valid()
      modifies this`nodes, this`trees, this`frames
      ensures Valid() && frames == Append(old(frames), TextNode(text))
    {
      hide Good;
      GoodTop(nodes, stack, trees, frames);
      var current := stack[|stack| - 1];
      var node := Node(TextKind, "", [], text, None, []);
      AddLeaf(nodes, stack, trees, frames, node, TextNode(text));
      trees, frames := trees[|nodes| := TextNode(text)], Append(frames, TextNode(text));
      nodes := AddNode(nodes, current, node);
    }

    method AddVoid(tag: string, attrs: Attrs)
      requires Valid()
      modifies this`nodes, this`trees, this`frames
      ensures Valid() && frames == Append(old(frames), Void(tag, attrs))
    {
      hide Good;
      GoodTop(nodes, stack, trees, frames);
      var current := stack[|stack| - 1];
      var node := Node(VoidKind, tag, attrs, "", None, []);
      AddLeaf(nodes, stack, trees, frames, node, Void(tag, attrs));
      trees, frames := trees[|nodes| := Void(tag, attrs)], Append(frames, Void(tag, attrs));
      nodes := AddNode(nodes, current, node);
    }

    method Open(tag: string, attrs: Attrs)
      requires Valid()
      modifies this`nodes, this`stack, this`trees, this`frames
      ensures Valid() && frames == old(frames) + [Frame(tag, attrs, [])]
    {
      hide Good;
      GoodTop(nodes, stack, trees, frames);
      var current, id := stack[|stack| - 1], |nodes|;
      var node := Node(ElementKind, tag, attrs, "", None, []);
      OpenElement(nodes, stack, trees, frames, node);
      frames := frames + [Frame(tag, attrs, [])];
      nodes := AddNode(nodes, current, node);
      stack := stack + [id];
    }

    /** Pop back to the innermost open element with this tag, if there is one.  The document
        is never popped: no tag is spelled like its name. */
    method Close(tag: string)
      requires Valid() && tag != "#document"
      modifies this`stack, this`trees, this`frames
      ensures Valid() && frames == CloseElement(old(frames), tag)
    {
      hide Linked, Path, ShowsList, PopTo;
      GoodTop(nodes, stack, trees, frames);
      if |stack| > 1 {
        var si := |stack| - 1;
        while si >= 0
          invariant -1 <= si < |stack|
          invariant forall j | si < j < |stack| :: frames[j].tag != tag
        {
          assert FrameAt(nodes, stack, trees, frames, si);
          if nodes[stack[si]].tag == tag {
            RootTag(nodes, stack, trees, frames);
            FindOpenIs(frames, tag, si);
            trees := CloseTo(nodes, stack, trees, frames, si);
            frames := PopTo(frames, si);
            stack := stack[..si];
            return;
          }
          si := si - 1;
        }
      }
      FindOpenNone(frames, tag);
    }

    /** One round of the main loop. */
    method Advance()
      requires Valid() && pos < |src|
      modifies this
      ensures Valid() && old(pos) < pos
      ensures frames != [] && old(frames) != [] && (frames, Rest()) == Round(old(Rest()), old(frames))
    {
      hide Good, ParseTag, CloseElement, Append;
      GoodTop(nodes, stack, trees, frames);
      if src[pos] == '<' {
        CloseTagsPlain(src[pos..]);
        var token := ParseTagToken();
        match token
        case Comment =>
        case OpenTag(tag, attrs) => Open(tag, attrs);
        case VoidTag(tag, attrs) => AddVoid(tag, attrs);
        case CloseTag(tag) => Close(tag);
      } else {
        assert NotOpening(src[pos..][0]);
        var text := Take(Span(NotOpening, src[pos..]));
        AddText(text);
      }
    }
  }

  lemma GoodTop(nodes: Nodes, stack: seq<Ref>, trees: Trees, frames: seq<Frame>)
    requires Good(nodes, stack, trees, frames)
    ensures stack != [] && |frames| == |stack| && stack[|stack| - 1] < |nodes|
  {
  }

  lemma RootTag(nodes: Nodes, stack: seq<Ref>, trees: Trees, frames: seq<Frame>)
    requires Good(nodes, stack, trees, frames)
    ensures stack != [] && nodes != [] && stack[0] == 0 && nodes[0].tag == "#document"
  {
  }

  lemma FindOpenIs(frames: seq<Frame>, tag: string, i: nat)
    requires 0 < i < |frames| && frames[i].tag == tag && forall j | i < j < |frames| :: frames[j].tag != tag
    ensures FindOpen(frames, tag) == i
  {
  }

  lemma FindOpenNone(frames: seq<Frame>, tag: string)
    requires forall j | 0 < j < |frames| :: frames[j].tag != tag
    ensures FindOpen(frames, tag) == 0
  {
  }

  lemma CloseTagsPlain(s: string)
    requires s != "" && s[0] == '<'
    ensures ParseTag(s).0.CloseTag? ==> ParseTag(s).0.tag != "#document"
  {
    hide FinishTag, CloseLength, AfterBang;
    var p := s[1..];
    if p != "" && p[0] == '/' {
      var q := p[1..];
      var n := TagLength(q);
      if n > 0 { assert Lower(q[..n])[0] == LowerChar(q[0]) && IsLetter(q[0]); }
    } else if p == "" || p[0] != '!' {
      var n := TagLength(p);
      FinishNeverCloses(Lower(p[..n]), p[n..]);
    }
  }

  lemma FinishNeverCloses(tag: string, s: string)
    ensures !FinishTag(tag, s).0.CloseTag?
  {
  }

  /** One linked tree whose document node has exactly these trees under it. */
  ghost predicate StandsFor(nodes: Nodes, trees: seq<Tree>) {
    Linked(nodes) && RepresentsList(nodes, nodes[0].children, trees)
  }

  /** For every input the tokenizer ends, and its nodes are one linked tree in which each
      node appears once under the node its `parent` names; the tree they stand for is the
      parse of the input. */
  method Tokenize(src: string) returns (nodes: Nodes)
    ensures StandsFor(nodes, Parse(src))
  {
    var t := new Tokenizer(src);
    assert src[0..] == src;
    while t.pos < |t.src|
      invariant t.Valid() && t.src == src && t.frames != []
      invariant Build(t.Rest(), t.frames) == Build(src, [ROOT])
    {
      hide Good, Round;
      t.Advance();
    }
    assert t.Rest() == "";
    nodes := t.nodes;
    ghost var trees := CloseTo(t.nodes, t.stack, t.trees, t.frames, 1);
    Finished(t.nodes, t.stack[..1], trees, PopTo(t.frames, 1));
  }

  lemma Finished(nodes: Nodes, stack: seq<Ref>, trees: Trees, frames: seq<Frame>)
    requires Good(nodes, stack, trees, frames) && |stack| == 1
    ensures |frames| == 1 && Linked(nodes) && RepresentsList(nodes, nodes[0].children, frames[0].children)
  {
    hide Linked;
    assert FrameAt(nodes, stack, trees, frames, 0);
    ClosedList(nodes, trees, nodes[0].children, frames[0].children);
  }
}
