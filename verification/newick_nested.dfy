/** The Newick parser of src/node.py:47-91 with the evidently intended
    nesting: a `(` opens a list of children that only its own `)` closes.

    As written, the `)` is consumed by whichever node stands before it, so
    a clade with neither a label nor a branch length that is followed by
    `,` absorbs its following siblings (`NewickRender.SiblingAbsorbed`).
    Here each node stops on the `,`, `)` or `;` after it and leaves that
    character to its parent; the list that began at `(` consumes the `)`.
    Labels, branch lengths, whitespace and the tree-level checks are those
    of the source. */
module NewickNested {
  import opened Wrappers
  import opened Text
  import opened NewickNode
  import opened NewickTree
  import opened NewickRender

  // ---------------------------------------------------------------------
  // The parser
  // ---------------------------------------------------------------------

  /** The end of a node: a `,`, `)` or `;`, left for the caller. */
  function NodeClose(s: string, i: nat): (r: Parse<nat>)
    requires i <= |s|
    ensures r.Ok? <==> i < |s| && Closer(s[i])
    ensures r.Ok? ==> r.value == i
    ensures i == |s| ==> r == Err(EndBeforeTerminator)
  {
    if i >= |s| then
      Err(EndBeforeTerminator)
    else if Closer(s[i]) then
      Ok(i)
    else
      Err(UnexpectedAtNodeEnd(s[i]))
  }

  /** src/node.py:72-78 and the end of the node: the branch length, then
      the `,`, `)` or `;` after it. */
  function Tail(s: string, i: nat): (r: Parse<(Meta, nat)>)
    requires i <= |s|
    ensures r.Ok? ==> i <= r.value.1 < |s| && Closer(s[r.value.1])
    ensures r.Ok? ==> r.value.0.Keys <= {BranchKey}
    ensures i == |s| ==> r == Err(EndBeforeBranchLength)
  {
    if i >= |s| then
      Err(EndBeforeBranchLength)
    else
      var b :- BranchLength(s, i);
      var e :- NodeClose(s, b.1);
      Ok((b.0, e))
  }

  /** The label, branch length and end of a node whose children `cs` have
      been read and which continues at `k`. */
  function Labelled(s: string, k: nat, cs: seq<Node>): (r: Parse<(Node, nat)>)
    requires k <= |s|
    ensures r.Ok? ==> k <= r.value.1 < |s| && Closer(s[r.value.1])
    ensures r.Ok? ==> r.value.0.children == cs && r.value.0.meta.Keys <= {BranchKey}
    ensures k == |s| ==> r == Err(EndBeforeLabel)
  {
    if k >= |s| then
      Err(EndBeforeLabel)
    else
      var l :- LabelStep(s, k);
      var t :- Tail(s, l.1);
      Ok((Node(l.0, t.0, cs), t.1))
  }

  /** One node starting at `i`, and the index of the `,`, `)` or `;` after
      it. */
  function ParseNode(s: string, i: nat): (r: Parse<(Node, nat)>)
    requires i <= |s|
    ensures r.Ok? ==> i <= r.value.1 < |s| && Closer(s[r.value.1])
    ensures r.Ok? ==> r.value.0.meta.Keys <= {BranchKey}
    ensures SkipWhitespace(s, i) == |s| ==> r == Err(EndBeforeLabel)
    decreases |s| - i, 1
  {
    var j := SkipWhitespace(s, i);
    if j < |s| && s[j] == '(' then Bracketed(s, j) else Labelled(s, j, [])
  }

  /** A node whose children open with the `(` at `j`. */
  function Bracketed(s: string, j: nat): (r: Parse<(Node, nat)>)
    requires j < |s| && s[j] == '('
    ensures r.Ok? ==> j < r.value.1 < |s| && Closer(s[r.value.1])
    ensures r.Ok? ==> r.value.0.meta.Keys <= {BranchKey} && |r.value.0.children| > 0
    decreases |s| - j, 0
  {
    var c :- ChildList(s, j + 1);
    Labelled(s, c.1, c.0)
  }

  /** The children after a `(`, separated by `,`, up to and including the
      matching `)` and the whitespace after it. */
  function ChildList(s: string, j: nat): (r: Parse<(seq<Node>, nat)>)
    requires j <= |s|
    ensures r.Ok? ==> j < r.value.1 <= |s| && |r.value.0| > 0
    decreases |s| - j, 2
  {
    var c :- ParseNode(s, j);
    var k := c.1;
    if s[k] == ',' then
      var rest :- ChildList(s, k + 1);
      Ok(([c.0] + rest.0, rest.1))
    else if s[k] == ')' then
      Ok(([c.0], SkipWhitespace(s, k + 1)))
    else
      Err(MissingCloseParen)
  }

  /** src/tree.py:42-55 over the corrected node parser: strip comments and
      trailing whitespace, read the root, then demand the final `;`. */
  function ParseTree(name: string, text: string): (r: Parse<Tree>)
    ensures StripComments(text).Err? ==> r == Err(StripComments(text).error)
    ensures r.Ok? <==>
      && StripComments(text).Ok?
      && var t := RStrip(StripComments(text).value);
         ParseNode(t, 0).Ok? && ParseNode(t, 0).value.1 + 1 == |t| && t[|t| - 1] == ';'
    ensures r.Ok? ==> r.value == Tree(name, ParseNode(RStrip(StripComments(text).value), 0).value.0)
  {
    var stripped :- StripComments(text);
    var t := RStrip(stripped);
    var p :- ParseNode(t, 0);
    FinalSemicolon(t, p.1, Tree(name, p.0))
  }

  // ---------------------------------------------------------------------
  // The round trip, for every plain tree
  // ---------------------------------------------------------------------

  lemma LabelledStep(s: string, k: nat, cs: seq<Node>, name: string, m: nat, meta: Meta, e: nat)
    requires k < |s| && LabelStep(s, k) == Ok((name, m))
    requires m < |s| && BranchLength(s, m) == Ok((meta, e))
    requires e < |s| && Closer(s[e])
    ensures Labelled(s, k, cs) == Ok((Node(name, meta, cs), e))
  {
    assert Tail(s, m) == Ok((meta, e));
  }

  /** The first character of a rendered label and branch length, or the
      closer after them when both are absent: never `(` or whitespace. */
  lemma TailOpening(n: Node, s: string, k: nat, e: nat)
    requires TailOk(n)
    requires At(s, k, TailText(n)) && e == k + |TailText(n)|
    requires e < |s| && Closer(s[e])
    ensures s[k] != '(' && !IsSpace(s[k])
  {
    var b := BranchText(n.meta);
    AtConcat(s, k, n.name, b, k + |n.name|);
    if n.name != [] {
      AtChar(s, k, n.name, 0);
      assert LabelChar(n.name[0]);
    } else if BranchKey in n.meta {
      AtChar(s, k, b, 0);
    }
  }

  /** A rendered label and branch length read back, up to the closer after
      them. */
  lemma TailReads(n: Node, s: string, k: nat, e: nat)
    requires TailOk(n)
    requires At(s, k, TailText(n)) && e == k + |TailText(n)|
    requires e < |s| && Closer(s[e])
    ensures Labelled(s, k, n.children) == Ok((n, e))
  {
    AtConcat(s, k, n.name, BranchText(n.meta), k + |n.name|);
    TailPartsRead(n, s, k, k + |n.name|, e);
  }

  lemma TailPartsRead(n: Node, s: string, k: nat, m: nat, e: nat)
    requires TailOk(n)
    requires At(s, k, n.name) && m == k + |n.name|
    requires At(s, m, BranchText(n.meta)) && e == m + |BranchText(n.meta)|
    requires e < |s| && Closer(s[e])
    ensures Labelled(s, k, n.children) == Ok((n, e))
  {
    MetaReads(n, s, m, e);
    LabelParses(n.name, s, k, m);
    LabelledStep(s, k, n.children, n.name, m, n.meta, e);
  }

  /** A rendered branch length, or its absence, read back up to the closer
      after it. */
  lemma MetaReads(n: Node, s: string, m: nat, e: nat)
    requires TailOk(n)
    requires At(s, m, BranchText(n.meta)) && e == m + |BranchText(n.meta)|
    requires e < |s| && Closer(s[e])
    ensures m < |s| && (s[m] == ':' || Closer(s[m]))
    ensures BranchLength(s, m) == Ok((n.meta, e))
  {
    if BranchKey in n.meta {
      AtChar(s, m, BranchText(n.meta), 0);
      BranchLengthParses(n.meta[BranchKey], s, m, e);
      assert map[BranchKey := n.meta[BranchKey]] == n.meta;
    } else {
      assert n.meta == map[];
    }
  }

  /** One step of each parser function, stated on its parts' results. */
  lemma LeafStep(s: string, i: nat, r: Parse<(Node, nat)>)
    requires i < |s| && s[i] != '(' && !IsSpace(s[i])
    requires Labelled(s, i, []) == r
    ensures ParseNode(s, i) == r
  {
    assert SkipWhitespace(s, i) == i;
  }

  lemma BracketStep(s: string, i: nat, cs: seq<Node>, k: nat, r: Parse<(Node, nat)>)
    requires i < |s| && s[i] == '('
    requires ChildList(s, i + 1) == Ok((cs, k))
    requires Labelled(s, k, cs) == r
    ensures Bracketed(s, i) == r
  {
  }

  lemma InnerStep(s: string, i: nat, r: Parse<(Node, nat)>)
    requires i < |s| && s[i] == '('
    requires Bracketed(s, i) == r
    ensures ParseNode(s, i) == r
  {
    assert SkipWhitespace(s, i) == i;
  }

  lemma LastStep(s: string, j: nat, cs: seq<Node>, e: nat, end: nat)
    requires |cs| == 1 && j <= |s| && ParseNode(s, j) == Ok((cs[0], e))
    requires s[e] == ')' && SkipWhitespace(s, e + 1) == end
    ensures ChildList(s, j) == Ok((cs, end))
  {
    OnlyChildStep(s, j, cs[0], e, end);
    Singleton(cs);
  }

  lemma OnlyChildStep(s: string, j: nat, c: Node, e: nat, end: nat)
    requires j <= |s| && ParseNode(s, j) == Ok((c, e))
    requires s[e] == ')' && SkipWhitespace(s, e + 1) == end
    ensures ChildList(s, j) == Ok(([c], end))
  {
  }

  lemma Singleton(cs: seq<Node>)
    requires |cs| == 1
    ensures cs == [cs[0]]
  {
  }

  lemma NextStep(s: string, j: nat, cs: seq<Node>, e: nat, end: nat)
    requires |cs| > 1 && j <= |s| && ParseNode(s, j) == Ok((cs[0], e))
    requires s[e] == ',' && ChildList(s, e + 1) == Ok((cs[1..], end))
    ensures ChildList(s, j) == Ok((cs, end))
  {
    assert [cs[0]] + cs[1..] == cs;
  }

  /** A tree whose root, read from the stripped text, stops on its final
      `;`. */
  lemma RootStep(name: string, text: string, t: string, n: Node)
    requires StripComments(text).Ok? && t == RStrip(StripComments(text).value)
    requires |t| > 0 && t[|t| - 1] == ';' && ParseNode(t, 0) == Ok((n, |t| - 1))
    ensures ParseTree(name, text) == Ok(Tree(name, n))
  {
    assert FinalSemicolon(t, |t| - 1, Tree(name, n)) == Ok(Tree(name, n));
  }

  /** A rendered node followed by `,`, `)` or `;` reads back, and the parse
      stops on that character. */
  lemma {:induction false} RenderedNodeReads(n: Node, s: string, i: nat, e: nat)
    requires PlainNode(n)
    requires At(s, i, Render(n)) && e == i + |Render(n)|
    requires e < |s| && Closer(s[e])
    ensures ParseNode(s, i) == Ok((n, e))
    decreases n, 2
  {
    AtConcat(s, i, ChildrenText(n.children), TailText(n), i + |ChildrenText(n.children)|);
    NodePartsRead(n, s, i, i + |ChildrenText(n.children)|, e);
  }

  lemma {:induction false} NodePartsRead(n: Node, s: string, i: nat, k: nat, e: nat)
    requires PlainNode(n)
    requires At(s, i, ChildrenText(n.children)) && k == i + |ChildrenText(n.children)|
    requires At(s, k, TailText(n)) && e == k + |TailText(n)|
    requires e < |s| && Closer(s[e])
    ensures ParseNode(s, i) == Ok((n, e))
    decreases n, 1
  {
    TailReads(n, s, k, e);
    TailOpening(n, s, k, e);
    if |n.children| == 0 {
      LeafStep(s, i, Ok((n, e)));
    } else {
      InnerReads(n, s, i, k, e);
    }
  }

  lemma {:induction false} InnerReads(n: Node, s: string, i: nat, k: nat, e: nat)
    requires PlainNode(n) && |n.children| > 0
    requires At(s, i, ChildrenText(n.children)) && k == i + |ChildrenText(n.children)|
    requires k < |s| && !IsSpace(s[k]) && Labelled(s, k, n.children) == Ok((n, e))
    ensures ParseNode(s, i) == Ok((n, e))
    decreases n, 0
  {
    SplitBracketed(s, i, RenderList(n.children));
    RenderedListReads(n.children, s, i + 1, k);
    BracketStep(s, i, n.children, k, Ok((n, e)));
    InnerStep(s, i, Ok((n, e)));
  }

  /** Rendered children and the `)` after them read back as the same list,
      and the parse resumes just after the `)`. */
  lemma {:induction false} RenderedListReads(cs: seq<Node>, s: string, j: nat, end: nat)
    requires cs != [] && forall c | c in cs :: PlainNode(c)
    requires At(s, j, RenderList(cs) + ")") && end == j + |RenderList(cs)| + 1
    requires end < |s| && !IsSpace(s[end])
    ensures ChildList(s, j) == Ok((cs, end))
    decreases cs, 4
  {
    if |cs| == 1 {
      LastChildReads(cs, s, j, end);
    } else {
      NextChildReads(cs, s, j, end);
    }
  }

  lemma {:induction false} LastChildReads(cs: seq<Node>, s: string, j: nat, end: nat)
    requires |cs| == 1 && PlainNode(cs[0])
    requires At(s, j, RenderList(cs) + ")") && end == j + |RenderList(cs)| + 1
    requires end < |s| && !IsSpace(s[end])
    ensures ChildList(s, j) == Ok((cs, end))
    decreases cs, 3
  {
    LastChildText(cs, s, j, j + |Render(cs[0])|, end);
    LastChildParse(cs, s, j, j + |Render(cs[0])|, end);
  }

  lemma {:induction false} LastChildParse(cs: seq<Node>, s: string, j: nat, e: nat, end: nat)
    requires |cs| == 1 && PlainNode(cs[0])
    requires At(s, j, Render(cs[0])) && e == j + |Render(cs[0])| && e < |s| && s[e] == ')'
    requires SkipWhitespace(s, e + 1) == end
    ensures ChildList(s, j) == Ok((cs, end))
    decreases cs, 2
  {
    RenderedNodeReads(cs[0], s, j, e);
    LastStep(s, j, cs, e, end);
  }

  lemma {:induction false} NextChildReads(cs: seq<Node>, s: string, j: nat, end: nat)
    requires |cs| > 1 && forall c | c in cs :: PlainNode(c)
    requires At(s, j, RenderList(cs) + ")") && end == j + |RenderList(cs)| + 1
    requires end < |s| && !IsSpace(s[end])
    ensures ChildList(s, j) == Ok((cs, end))
    decreases cs, 3
  {
    NextChildText(cs, s, j, j + |Render(cs[0])|, end);
    PlainParts(cs);
    NextChildParse(cs, s, j, j + |Render(cs[0])|, end);
  }

  lemma {:induction false} NextChildParse(cs: seq<Node>, s: string, j: nat, e: nat, end: nat)
    requires |cs| > 1 && PlainNode(cs[0]) && forall c | c in cs[1..] :: PlainNode(c)
    requires At(s, j, Render(cs[0])) && e == j + |Render(cs[0])| && e < |s| && s[e] == ','
    requires At(s, e + 1, RenderList(cs[1..]) + ")") && end == e + 1 + |RenderList(cs[1..])| + 1
    requires end < |s| && !IsSpace(s[end])
    ensures ChildList(s, j) == Ok((cs, end))
    decreases cs, 2
  {
    RenderedNodeReads(cs[0], s, j, e);
    OtherChildrenParse(cs, s, j, e, end);
  }

  lemma {:induction false} OtherChildrenParse(cs: seq<Node>, s: string, j: nat, e: nat, end: nat)
    requires |cs| > 1 && forall c | c in cs[1..] :: PlainNode(c)
    requires j <= |s| && ParseNode(s, j) == Ok((cs[0], e)) && e < |s| && s[e] == ','
    requires At(s, e + 1, RenderList(cs[1..]) + ")") && end == e + 1 + |RenderList(cs[1..])| + 1
    requires end < |s| && !IsSpace(s[end])
    ensures ChildList(s, j) == Ok((cs, end))
    decreases cs, 1
  {
    RenderedListReads(cs[1..], s, e + 1, end);
    NextStep(s, j, cs, e, end);
  }

  /** The text of a single child and the `)` after it. */
  lemma LastChildText(cs: seq<Node>, s: string, j: nat, e: nat, end: nat)
    requires |cs| == 1
    requires At(s, j, RenderList(cs) + ")") && end == j + |RenderList(cs)| + 1
    requires end < |s| && !IsSpace(s[end])
    requires e == j + |Render(cs[0])|
    ensures At(s, j, Render(cs[0])) && e < |s| && s[e] == ')'
    ensures SkipWhitespace(s, e + 1) == end
  {
    assert RenderList(cs) == Render(cs[0]);
    SplitLast(s, j, Render(cs[0]), e);
  }

  /** The text of the first of several children, the `,` after it, and the
      text of the others with the `)` after them. */
  lemma NextChildText(cs: seq<Node>, s: string, j: nat, e: nat, end: nat)
    requires |cs| > 1
    requires At(s, j, RenderList(cs) + ")") && end == j + |RenderList(cs)| + 1
    requires e == j + |Render(cs[0])|
    ensures At(s, j, Render(cs[0])) && e < |s| && s[e] == ','
    ensures At(s, e + 1, RenderList(cs[1..]) + ")") && end == e + 1 + |RenderList(cs[1..])| + 1
  {
    assert RenderList(cs) == Render(cs[0]) + "," + RenderList(cs[1..]);
    SplitFirst(s, j, Render(cs[0]), RenderList(cs[1..]), e);
  }

  lemma PlainParts(cs: seq<Node>)
    requires cs != [] && forall c | c in cs :: PlainNode(c)
    ensures PlainNode(cs[0]) && forall c | c in cs[1..] :: PlainNode(c)
  {
    assert cs[0] in cs;
    forall c | c in cs[1..]
      ensures PlainNode(c)
    {
      assert c in cs;
    }
  }

  /** The rendering of a plain tree, ended by `;`, reads back as the tree. */
  lemma RenderedTextReads(n: Node, s: string)
    requires PlainNode(n) && s == Render(n) + ";"
    ensures ParseNode(s, 0) == Ok((n, |s| - 1))
  {
    var r := Render(n);
    AtPrefix(r, ";");
    RenderedNodeReads(n, s, 0, |r|);
  }

  /** Rendering any plain tree and reading it back with the corrected
      parser gives the tree again: no node needs a label or branch length. */
  lemma PlainRoundTrip(t: Tree)
    requires PlainNode(t.root)
    ensures ParseTree(t.name, RenderTree(t)) == Ok(t)
  {
    var u := Render(t.root) + ";";
    RenderedTreeText(t);
    RenderedTextReads(t.root, u);
    RootStep(t.name, RenderTree(t), u, t.root);
  }

  /** On every text that the parser of src/node.py reads back correctly,
      the corrected parser gives the same tree. */
  lemma ParsersAgree(t: Tree)
    requires Renderable(t.root)
    ensures ParseTree(t.name, RenderTree(t)) == NewickTree.ParseTree(t.name, RenderTree(t))
  {
    RenderableIsPlain(t.root);
    PlainRoundTrip(t);
    NewickRender.TreeRoundTrip(t);
  }

  // ---------------------------------------------------------------------
  // The inputs on which the two parsers differ
  // ---------------------------------------------------------------------

  /** Text that ends in a character other than whitespace loses nothing to
      `RStrip`. */
  lemma EndKept(s: string)
    requires |s| > 0 && !IsSpace(s[|s| - 1])
    ensures RStrip(s) == s
  {
  }

  /** `((A,B),C);` is the clade of A and B beside the leaf C; the parser of
      src/node.py makes it one clade of three leaves
      (`NewickRender.SiblingAbsorbed`). */
  lemma CladeKept(name: string, u: string, x: char, y: char, z: char)
    requires u == ['(', '(', x, ',', y, ')', ',', z, ')', ';']
    requires LabelChar(x) && LabelChar(y) && LabelChar(z)
    ensures ParseTree(name, u) == Ok(Tree(name,
      Node("", map[], [Node("", map[], [Node([x], map[], []), Node([y], map[], [])]), Node([z], map[], [])])))
  {
    CladeRootParses(u, x, y, z);
    assert forall k | 0 <= k < |u| :: u[k] in {'(', ',', ')', ';', x, y, z};
    StripPlainText(u);
    EndKept(u);
    RootStep(name, u, u, Node("", map[], [Node("", map[], [Node([x], map[], []), Node([y], map[], [])]), Node([z], map[], [])]));
  }

  lemma CladeRootParses(u: string, x: char, y: char, z: char)
    requires u == ['(', '(', x, ',', y, ')', ',', z, ')', ';']
    requires LabelChar(x) && LabelChar(y) && LabelChar(z)
    ensures ParseNode(u, 0)
      == Ok((Node("", map[], [Node("", map[], [Node([x], map[], []), Node([y], map[], [])]), Node([z], map[], [])]), 9))
  {
    CladeRendered(x, y, z);
    RenderedTextReads(Node("", map[], [Node("", map[], [Node([x], map[], []), Node([y], map[], [])]), Node([z], map[], [])]), u);
  }

  /** The tree of `CladeKept` is plain and renders as `((A,B),C)`. */
  lemma CladeRendered(x: char, y: char, z: char)
    requires LabelChar(x) && LabelChar(y) && LabelChar(z)
    ensures var root := Node("", map[], [Node("", map[], [Node([x], map[], []), Node([y], map[], [])]), Node([z], map[], [])]);
      PlainNode(root) && Render(root) == ['(', '(', x, ',', y, ')', ',', z, ')']
  {
    var a, b, c := Node([x], map[], []), Node([y], map[], []), Node([z], map[], []);
    var clade := Node("", map[], [a, b]);
    LeafRendered(x);
    LeafRendered(y);
    LeafRendered(z);
    PairRendered(a, b);
    PairRendered(clade, c);
  }

  lemma LeafRendered(x: char)
    requires LabelChar(x)
    ensures PlainNode(Node([x], map[], [])) && Render(Node([x], map[], [])) == [x]
  {
    assert PlainLabel([x]);
  }

  /** An unlabelled node with two children. */
  lemma PairRendered(a: Node, b: Node)
    ensures Render(Node("", map[], [a, b])) == "(" + Render(a) + "," + Render(b) + ")"
    ensures PlainNode(a) && PlainNode(b) ==> PlainNode(Node("", map[], [a, b]))
  {
    assert RenderList([a, b]) == Render(a) + "," + RenderList([b]);
    assert PlainLabel("");
  }

  /** A `(` whose children run into the `;` is an error: `(A,B;` is
      rejected, where the parser of src/node.py reads a root with the
      children A and B (`NewickRender.MissingCloseAccepted`). */
  lemma MissingCloseRejected(name: string, u: string, x: char, y: char)
    requires u == ['(', x, ',', y, ';'] && LabelChar(x) && LabelChar(y)
    ensures ParseTree(name, u) == Err(MissingCloseParen)
  {
    var a, b := Node([x], map[], []), Node([y], map[], []);
    assert PlainLabel([x]) && PlainLabel([y]);
    assert Render(a) == [x] && Render(b) == [y];
    assert At(u, 1, Render(a)) && At(u, 3, Render(b));
    RenderedNodeReads(a, u, 1, 2);
    RenderedNodeReads(b, u, 3, 4);
    assert ChildList(u, 3) == Err(MissingCloseParen);
    assert ChildList(u, 1) == Err(MissingCloseParen);
    InnerStep(u, 0, Err(MissingCloseParen));
    StripPlainText(u);
    EndKept(u);
  }

  /** An unmatched `)` ends the node before it but not the tree: `A);` is
      rejected at the `)`, where the parser of src/node.py reads the leaf
      A (`NewickRender.ExtraCloseAccepted`). */
  lemma ExtraCloseRejected(name: string, v: string, x: char)
    requires v == [x, ')', ';'] && LabelChar(x)
    ensures ParseTree(name, v) == Err(ExpectedSemicolon(')'))
  {
    var a := Node([x], map[], []);
    assert PlainLabel([x]) && Render(a) == [x] && At(v, 0, Render(a));
    RenderedNodeReads(a, v, 0, 1);
    StripPlainText(v);
    EndKept(v);
  }
}
