/** What closing tags, void elements, comments and the end of the input do, on texts. */
module HtmlClosing {
  import opened Text
  import opened HtmlSyntax
  import opened HtmlRoundTrip

  // ---------- elements left open ----------

  /** An element that can be opened by its start tag and filled by writing its children. */
  predicate Openable(f: Frame) {
    IsTagName(f.tag) && !IsVoidTag(f.tag) && NormalAttrs(f.attrs) && NormalList(f.children)
  }

  predicate AllOpenable(fs: seq<Frame>) {
    forall i | 0 <= i < |fs| :: Openable(fs[i])
  }

  /** The start tag, followed by the children. */
  function Opened(f: Frame): (s: string) {
    "<" + f.tag + PrintAttrs(f.attrs) + ">" + Inner(f.children)
  }

  /** The start tags of elements one inside the next, each followed by the children it has so far. */
  function Opening(fs: seq<Frame>): (s: string) {
    if fs == [] then "" else Opened(fs[0]) + Opening(fs[1..])
  }

  /** The elements one inside the next, with `inner` as the last children of the innermost. */
  function Nested(fs: seq<Frame>, inner: seq<Tree>): (doc: seq<Tree>) {
    if fs == [] then inner
    else [Element(fs[0].tag, fs[0].attrs, fs[0].children + Nested(fs[1..], inner))]
  }

  lemma OpenOne(f: Frame, rest: string, stack: seq<Frame>)
    requires Openable(f) && Delimited(rest) && stack != []
    ensures Build(Opened(f) + rest, stack) == Build(rest, stack + [f])
  {
    hide Build, ParseTag, IsTagName, NormalAttrs, IsVoidTag, PrintAttrs, NormalList, Inner;
    var inside := Inner(f.children) + rest;
    var end := ">" + inside;
    var s := Opened(f) + rest;
    assert s == "<" + f.tag + PrintAttrs(f.attrs) + end;
    ReadStart(f.tag, f.attrs, end);
    assert end[1..] == inside;
    BuildTag(s, stack, OpenTag(f.tag, f.attrs), inside);
    var deeper := stack + [Frame(f.tag, f.attrs, [])];
    BuildList(f.children, rest, deeper);
    assert [] + f.children == f.children;
    assert AppendAll(deeper, f.children) == stack + [f];
  }

  lemma OpeningCons(fs: seq<Frame>, rest: string)
    requires fs != []
    ensures Opening(fs) + rest == Opened(fs[0]) + (Opening(fs[1..]) + rest)
    ensures (Opening(fs) + rest)[0] == '<'
  {
    assert Opened(fs[0])[0] == '<';
    hide Opened;
  }

  lemma {:induction false} BuildOpening(fs: seq<Frame>, rest: string, stack: seq<Frame>)
    requires AllOpenable(fs) && Delimited(rest) && stack != []
    ensures Build(Opening(fs) + rest, stack) == Build(rest, stack + fs)
    decreases |fs|
  {
    hide Build, Openable, Opened;
    if fs == [] {
      assert Opening(fs) + rest == rest && stack + fs == stack;
    } else {
      hide Opening;
      var after := Opening(fs[1..]) + rest;
      if |fs| > 1 { OpeningCons(fs[1..], rest); } else { NothingOpened(rest); }
      OpeningCons(fs, rest);
      OpenOne(fs[0], after, stack);
      BuildOpening(fs[1..], rest, stack + [fs[0]]);
      assert stack + [fs[0]] + fs[1..] == stack + fs;
    }
  }

  lemma NothingOpened(rest: string)
    ensures Opening([]) + rest == rest
  {
  }

  /** Closing the frames above the first `n` nests them in the `n`-th. */
  lemma {:induction false} PopNests(stack: seq<Frame>, n: nat)
    requires 1 <= n <= |stack|
    ensures PopTo(stack, n) == AppendAll(stack[..n], Nested(stack[n..], []))
    decreases |stack|
  {
    hide Pop, AppendAll, Nested;
    if n == |stack| {
      assert stack[..n] == stack && stack[n..] == [];
      AppendNone(stack);
      NestedNone([]);
    } else {
      PopNests(Pop(stack), n);
      if n == |stack| - 1 { PopLast(stack); } else { PopBelow(stack, n); }
    }
  }

  lemma PopLast(stack: seq<Frame>)
    requires |stack| >= 2
    ensures var n := |stack| - 1;
            AppendAll(Pop(stack)[..n], Nested(Pop(stack)[n..], [])) == AppendAll(stack[..n], Nested(stack[n..], []))
  {
    var n := |stack| - 1;
    var rest, top := Pop(stack), stack[n];
    assert rest[..n] == rest && rest[n..] == [];
    assert stack[n..] == [top] && [top][1..] == [] && top.children + [] == top.children;
    AppendNone(rest);
  }

  lemma PopBelow(stack: seq<Frame>, n: nat)
    requires 1 <= n < |stack| - 1
    ensures Pop(stack)[..n] == stack[..n] && Nested(Pop(stack)[n..], []) == Nested(stack[n..], [])
  {
    hide Nested;
    var top, middle := stack[|stack| - 1], stack[n..|stack| - 1];
    var e := Element(top.tag, top.attrs, top.children);
    var below := stack[..|stack| - 1];
    assert Pop(stack) == AppendAll(below, [e]);
    hide Pop;
    assert below[n..] == middle && below[..n] == stack[..n];
    assert AppendAll(below, [e])[n..] == AppendAll(middle, [e]);
    NestedLast(middle, top);
    assert stack[n..] == middle + [top];
  }

  /** The innermost frame as an element in the one around it. */
  lemma {:induction false} NestedLast(fs: seq<Frame>, top: Frame)
    requires fs != []
    ensures Nested(AppendAll(fs, [Element(top.tag, top.attrs, top.children)]), []) == Nested(fs + [top], [])
  {
    var e := Element(top.tag, top.attrs, top.children);
    var more := AppendAll(fs, [e]);
    assert (fs + [top])[1..] == fs[1..] + [top];
    if |fs| == 1 {
      assert more[1..] == [] && fs[1..] + [top] == [top] && [top][1..] == [];
      assert more[0].children + [] == more[0].children && top.children + [] == top.children;
    } else {
      assert more[1..] == AppendAll(fs[1..], [e]) && more[0] == fs[0];
      NestedLast(fs[1..], top);
    }
  }

  /** The innermost of the elements with the tag. */
  predicate Innermost(fs: seq<Frame>, tag: string, i: nat) {
    i < |fs| && fs[i].tag == tag && forall k | i < k < |fs| :: fs[k].tag != tag
  }

  lemma FindInnermost(fs: seq<Frame>, tag: string, i: nat)
    requires Innermost(fs, tag, i)
    ensures FindOpen([ROOT] + fs, tag) == i + 1
  {
    var stack := [ROOT] + fs;
    assert stack[i + 1] == fs[i];
    assert forall k | i + 1 < k < |stack| :: stack[k] == fs[k - 1];
  }

  lemma FindNone(fs: seq<Frame>, tag: string)
    requires forall k | 0 <= k < |fs| :: fs[k].tag != tag
    ensures FindOpen([ROOT] + fs, tag) == 0
  {
    var stack := [ROOT] + fs;
    assert forall k | 0 < k < |stack| :: stack[k] == fs[k - 1];
  }

  lemma {:induction false} NestedAppend(fs: seq<Frame>, more: seq<Tree>)
    requires fs != []
    ensures Nested(AppendAll(fs, more), []) == Nested(fs, more)
  {
    var longer := AppendAll(fs, more);
    if |fs| == 1 {
      assert longer[1..] == [] && fs[1..] == [];
      assert longer[0].children + [] == fs[0].children + more;
    } else {
      assert longer[1..] == AppendAll(fs[1..], more) && longer[0] == fs[0];
      NestedAppend(fs[1..], more);
    }
  }

  /** At the end of the input everything that is open is closed. */
  lemma EndNests(fs: seq<Frame>, ys: seq<Tree>)
    ensures PopTo(AppendAll([ROOT] + fs, ys), 1)[0].children == Nested(fs, ys)
  {
    hide PopTo, Nested;
    var stack := AppendAll([ROOT] + fs, ys);
    PopNests(stack, 1);
    if fs == [] {
      assert stack[1..] == [] && [ROOT] + fs == [ROOT];
      NestedNone([]);
      NestedNone(ys);
      assert ROOT.children + ys + [] == ys;
    } else {
      FramesAboveRoot(fs, ys);
      NestedAppend(fs, ys);
      assert ROOT.children + Nested(fs, ys) == Nested(fs, ys);
    }
  }

  lemma FramesAboveRoot(fs: seq<Frame>, ys: seq<Tree>)
    requires fs != []
    ensures var stack := AppendAll([ROOT] + fs, ys); stack[..1] == [ROOT] && stack[1..] == AppendAll(fs, ys)
  {
  }

  lemma ListThenEnd(stack: seq<Frame>, ys: seq<Tree>)
    requires stack != [] && NormalList(ys)
    ensures Build(Inner(ys), stack) == AppendAll(stack, ys)
  {
    hide Inner, NormalList;
    assert Inner(ys) + "" == Inner(ys);
    BuildList(ys, "", stack);
  }

  /** Reading the elements, the closing tag and what follows. */
  lemma ReadClosing(fs: seq<Frame>, tag: string, ys: seq<Tree>)
    requires AllOpenable(fs) && IsTagName(tag) && NormalList(ys)
    ensures Parse(Opening(fs) + ("</" + tag + ">" + Inner(ys))) ==
            PopTo(AppendAll(CloseElement([ROOT] + fs, tag), ys), 1)[0].children
  {
    hide Build, ParseTag, AllOpenable, IsTagName, Inner, NormalList, Opening, PopTo, CloseElement, AppendAll;
    var close := "</" + tag + ">" + Inner(ys);
    BuildOpening(fs, close, [ROOT]);
    ReadEnd(tag, Inner(ys));
    BuildTag(close, [ROOT] + fs, CloseTag(tag), Inner(ys));
    ListThenEnd(CloseElement([ROOT] + fs, tag), ys);
  }

  lemma CloseInnermost(fs: seq<Frame>, tag: string, ys: seq<Tree>, i: nat)
    requires Innermost(fs, tag, i)
    ensures PopTo(AppendAll(CloseElement([ROOT] + fs, tag), ys), 1)[0].children ==
            Nested(fs[..i], Nested(fs[i..], []) + ys)
  {
    hide PopTo, FindOpen, Nested, AppendAll;
    var stack := [ROOT] + fs;
    FindInnermost(fs, tag, i);
    PopNests(stack, i + 1);
    assert stack[..i + 1] == [ROOT] + fs[..i] && stack[i + 1..] == fs[i..];
    AppendTwice([ROOT] + fs[..i], Nested(fs[i..], []), ys);
    EndNests(fs[..i], Nested(fs[i..], []) + ys);
  }

  /** A closing tag closes the innermost open element of its name together with everything open
      inside it, and what follows belongs to the element around it; without such an element it
      does nothing.  `fs` are the elements left open, `ys` is what follows the tag. */
  lemma ClosingTag(fs: seq<Frame>, tag: string, ys: seq<Tree>)
    requires AllOpenable(fs) && IsTagName(tag) && NormalList(ys)
    ensures forall i: nat | Innermost(fs, tag, i) ::
              Parse(Opening(fs) + ("</" + tag + ">" + Inner(ys))) == Nested(fs[..i], Nested(fs[i..], []) + ys)
    ensures (forall k | 0 <= k < |fs| :: fs[k].tag != tag) ==>
              Parse(Opening(fs) + ("</" + tag + ">" + Inner(ys))) == Nested(fs, ys)
  {
    hide Parse, AllOpenable, IsTagName, Inner, NormalList, Opening, PopTo, Nested, AppendAll;
    ReadClosing(fs, tag, ys);
    if forall k | 0 <= k < |fs| :: fs[k].tag != tag {
      FindNone(fs, tag);
      EndNests(fs, ys);
    }
    hide CloseElement, Innermost;
    forall i: nat | Innermost(fs, tag, i)
      ensures Parse(Opening(fs) + ("</" + tag + ">" + Inner(ys))) == Nested(fs[..i], Nested(fs[i..], []) + ys)
    {
      CloseInnermost(fs, tag, ys, i);
    }
  }

  lemma AppendTwice(stack: seq<Frame>, xs: seq<Tree>, ys: seq<Tree>)
    requires stack != []
    ensures AppendAll(AppendAll(stack, xs), ys) == AppendAll(stack, xs + ys)
  {
    var top := stack[|stack| - 1];
    assert top.children + xs + ys == top.children + (xs + ys);
  }

  /** `<a><b1>..<bn>` xs `</a>` ys, no `bi` being `a`. */
  lemma OuterTagCloses(tag: string, inner: seq<string>, xs: seq<Tree>, ys: seq<Tree>)
    requires IsTag(tag) && !IsVoidTag(tag) && NormalList(xs) && NormalList(ys)
    requires forall b | b in inner :: IsTag(b) && !IsVoidTag(b) && b != tag
    ensures var fs := [Frame(tag, [], if inner == [] then xs else [])] + Bare(inner, xs);
            Parse(Opening(fs) + ("</" + tag + ">" + Inner(ys))) == Nested(fs, []) + ys
  {
    hide Parse, Opening, Inner, NormalList, IsTag, IsVoidTag, Nested;
    var fs := [Frame(tag, [], if inner == [] then xs else [])] + Bare(inner, xs);
    assert NormalList([]) by { NothingNormal(); }
    assert forall i | 0 <= i < |inner| :: inner[i] in inner;
    assert Innermost(fs, tag, 0);
    ClosingTag(fs, tag, ys);
    assert fs[..0] == [] && fs[0..] == fs;
    NestedNone(Nested(fs, []) + ys);
  }

  lemma NothingNormal()
    ensures NormalList([])
  {
  }

  lemma NestedNone(inner: seq<Tree>)
    ensures Nested([], inner) == inner
  {
  }

  /** Elements without attributes, the last of them with children. */
  function Bare(tags: seq<string>, xs: seq<Tree>): (fs: seq<Frame>)
    ensures |fs| == |tags|
    ensures forall i | 0 <= i < |tags| :: fs[i] == Frame(tags[i], [], if i == |tags| - 1 then xs else [])
  {
    seq(|tags|, i requires 0 <= i < |tags| => Frame(tags[i], [], if i == |tags| - 1 then xs else []))
  }

  // ---------- void elements ----------

  const VOIDS := ["area", "base", "br", "col", "embed", "hr", "img", "input", "link", "meta", "param", "source",
                  "track", "wbr", "constructor"]

  lemma VoidsListed(tag: string)
    ensures IsVoidTag(tag) <==> tag in VOIDS
  {
  }

  lemma ThenList(xs: seq<Tree>, s: string, stack: seq<Frame>, ys: seq<Tree>)
    requires NormalList(xs) && NormalList(ys) && Delimited(s) && stack != []
    requires Build(s, AppendAll([ROOT], xs)) == Build(Inner(ys), stack)
    ensures Parse(Inner(xs) + s) == PopTo(AppendAll(stack, ys), 1)[0].children
  {
    hide Build, Inner, NormalList, PopTo;
    BuildList(xs, s, [ROOT]);
    ListThenEnd(stack, ys);
  }

  /** What is read onto the document is its children. */
  lemma RootChildren(zs: seq<Tree>)
    ensures PopTo(AppendAll([ROOT], zs), 1)[0].children == zs
  {
    RootOnly(zs);
  }

  /** A start tag with one of the void names makes an element without children, slash or not. */
  lemma VoidTagEnds(xs: seq<Tree>, tag: string, attrs: Attrs, ys: seq<Tree>)
    requires tag in VOIDS && IsTag(tag) && NormalAttrs(attrs) && NormalList(xs) && NormalList(ys)
    ensures Parse(Inner(xs) + ("<" + tag + PrintAttrs(attrs) + ">" + Inner(ys))) == xs + [Void(tag, attrs)] + ys
  {
    hide Build, ParseTag, IsTag, NormalAttrs, IsVoidTag, PrintAttrs, NormalList, Inner, PopTo, Parse;
    VoidsListed(tag);
    var end := ">" + Inner(ys);
    var s := "<" + tag + PrintAttrs(attrs) + ">" + Inner(ys);
    assert s == "<" + tag + PrintAttrs(attrs) + end;
    ReadStart(tag, attrs, end);
    assert end[1..] == Inner(ys);
    var stack := AppendAll([ROOT], xs);
    BuildTag(s, stack, VoidTag(tag, attrs), Inner(ys));
    assert Append(stack, Void(tag, attrs)) == AppendAll(stack, [Void(tag, attrs)]);
    AppendTwice([ROOT], xs, [Void(tag, attrs)]);
    ThenList(xs, s, AppendAll([ROOT], xs + [Void(tag, attrs)]), ys);
    AppendTwice([ROOT], xs + [Void(tag, attrs)], ys);
    RootChildren(xs + [Void(tag, attrs)] + ys);
  }

  // ---------- comments and declarations ----------

  /** `-->` begins at position `i`. */
  predicate EndsCommentAt(s: string, i: nat) {
    i + 3 <= |s| && s[i] == '-' && s[i + 1] == '-' && s[i + 2] == '>'
  }

  ghost predicate NoCommentEnd(s: string) {
    forall i: nat :: !EndsCommentAt(s, i)
  }

  lemma {:induction false} CommentEndIs(body: string, rest: string)
    requires NoCommentEnd(body)
    ensures CommentEnd(body + "-->" + rest) == |body|
  {
    var s := body + "-->" + rest;
    if body == "" {
      assert s[..3] == "-->";
    } else {
      assert s[1..] == body[1..] + "-->" + rest;
      forall i: nat ensures !EndsCommentAt(body[1..], i) { assert !EndsCommentAt(body, i + 1); }
      CommentEndIs(body[1..], rest);
      if s[..3] == "-->" {
        assert s[0] == '-' && s[1] == '-' && s[2] == '>';
        assert |body| >= 3;
        assert EndsCommentAt(body, 0);
      }
    }
  }

  lemma {:induction false} CommentEndNever(s: string)
    requires NoCommentEnd(s)
    ensures CommentEnd(s) == |s|
  {
    if |s| >= 3 {
      forall i: nat ensures !EndsCommentAt(s[1..], i) { assert !EndsCommentAt(s, i + 1); }
      CommentEndNever(s[1..]);
      assert !EndsCommentAt(s, 0);
    }
  }

  lemma Skipped(xs: seq<Tree>, bang: string, ys: seq<Tree>)
    requires NormalList(xs) && NormalList(ys) && ParseTag("<!" + bang) == (Comment, Inner(ys))
    ensures Parse(Inner(xs) + ("<!" + bang)) == xs + ys
  {
    hide Build, ParseTag, NormalList, Inner, PopTo, Parse;
    var stack := AppendAll([ROOT], xs);
    BuildTag("<!" + bang, stack, Comment, Inner(ys));
    ThenList(xs, "<!" + bang, stack, ys);
    AppendTwice([ROOT], xs, ys);
    RootChildren(xs + ys);
  }

  lemma ReadComment(body: string, rest: string)
    requires NoCommentEnd(body)
    ensures ParseTag("<!" + ("--" + body + "-->" + rest)) == (Comment, rest)
  {
    hide CommentEnd, NoCommentEnd;
    CommentEndIs(body, rest);
    var q := "--" + body + "-->" + rest;
    assert ("<!" + q)[1..][1..] == q && q[2..] == body + "-->" + rest;
    assert (body + "-->" + rest)[|body| + 3..] == rest;
  }

  lemma ReadOpenComment(body: string)
    requires NoCommentEnd(body)
    ensures ParseTag("<!" + ("--" + body)) == (Comment, "")
  {
    hide CommentEnd, NoCommentEnd;
    CommentEndNever(body);
    var q := "--" + body;
    assert ("<!" + q)[1..][1..] == q && q[2..] == body;
  }

  /** A comment leaves nothing behind; without its end it takes the rest of the input. */
  lemma CommentSkipped(xs: seq<Tree>, body: string, ys: seq<Tree>)
    requires NormalList(xs) && NormalList(ys) && NoCommentEnd(body)
    ensures Parse(Inner(xs) + ("<!" + ("--" + body + "-->" + Inner(ys)))) == xs + ys
    ensures Parse(Inner(xs) + ("<!" + ("--" + body))) == xs
  {
    hide NormalList, Inner, Parse, ParseTag, NoCommentEnd;
    ReadComment(body, Inner(ys));
    Skipped(xs, "--" + body + "-->" + Inner(ys), ys);
    ReadOpenComment(body);
    NothingWritten();
    Skipped(xs, "--" + body, []);
    assert xs + [] == xs;
  }

  lemma NothingWritten()
    ensures Inner([]) == "" && NormalList([])
  {
  }

  lemma NoComment(text: string, rest: string)
    ensures OpensComment(text + ['>'] + rest) <==> "--" <= text
  {
    var q := text + ['>'] + rest;
    if |text| >= 2 {
      assert q[0] == text[0] && q[1] == text[1];
      assert "--" <= text <==> text[0] == '-' && text[1] == '-';
    } else {
      assert q[|text|] == '>';
    }
  }

  /** So does any other declaration, up to its `>`. */
  lemma DeclarationSkipped(xs: seq<Tree>, text: string, ys: seq<Tree>)
    requires NormalList(xs) && NormalList(ys) && '>' !in text && !("--" <= text)
    ensures Parse(Inner(xs) + ("<!" + (text + ">" + Inner(ys)))) == xs + ys
  {
    hide NormalList, Inner, Parse;
    var q := text + ['>'] + Inner(ys);
    IndexAfter(text, '>', Inner(ys));
    assert text + ">" + Inner(ys) == q;
    var s := "<!" + q;
    assert s[1..][1..] == q;
    NoComment(text, Inner(ys));
    assert q[CloseLength(q)..] == Inner(ys);
    assert ParseTag(s) == (Comment, Inner(ys));
    Skipped(xs, q, ys);
  }
}
