/** A reference Newick renderer, written from the design of the serialiser
    (children in parentheses, then the label, then `:` and the branch
    length, with `;` and a newline at the tree level), and the round trip
    through the parser of src/node.py and src/tree.py.

    The parser lets a `)` close whichever node is being parsed, so a node
    that has neither a label nor a branch length and is followed by `,`
    does not end there: the `,` is read as the start of another child of
    that node. The round trip therefore holds for trees in which every
    child except the last has a label or a branch length (`HasTail`). */
module NewickRender {
  import opened Wrappers
  import opened Text
  import opened NewickNode
  import opened NewickTree

  // ---------------------------------------------------------------------
  // The renderer
  // ---------------------------------------------------------------------

  function LiteralText(v: MetaValue): string {
    match v
    case IntNum(x) => IntToString(x)
    case RealNum(t) => t
    case Str(t) => t
  }

  /** `:` and the branch length, or nothing when there is none. */
  function BranchText(meta: Meta): string {
    if BranchKey in meta then ":" + LiteralText(meta[BranchKey]) else ""
  }

  /** The label and branch length of a node. */
  function TailText(n: Node): string {
    n.name + BranchText(n.meta)
  }

  function Render(n: Node): string
    decreases n, 2
  {
    ChildrenText(n.children) + TailText(n)
  }

  /** Nothing for a leaf, otherwise the children in parentheses. */
  function ChildrenText(cs: seq<Node>): string
    decreases cs, 1
  {
    if |cs| == 0 then "" else "(" + RenderList(cs) + ")"
  }

  /** The renderings of `cs` separated by commas. */
  function RenderList(cs: seq<Node>): string
    requires cs != []
    decreases cs, 0
  {
    if |cs| == 1 then Render(cs[0]) else Render(cs[0]) + "," + RenderList(cs[1..])
  }

  /** The tree-level Newick text. */
  function RenderTree(t: Tree): string {
    Render(t.root) + ";\n"
  }

  // ---------------------------------------------------------------------
  // Which trees the parser reads back
  // ---------------------------------------------------------------------

  /** A character an unquoted label may hold so that the label survives
      comment stripping and ends exactly where it should. */
  predicate LabelChar(c: char) {
    !EndsLabel(c) && c != '(' && c != '[' && c != ']' && !IsQuote(c)
  }

  predicate PlainLabel(name: string) {
    forall k | 0 <= k < |name| :: LabelChar(name[k])
  }

  /** A branch length the parser reproduces: any integer, or a real whose
      text is a float literal. */
  predicate LiteralOk(v: MetaValue) {
    v.IntNum? || (v.RealNum? && FloatSyntax(v.text))
  }

  /** Something is rendered after the node's children. */
  predicate HasTail(n: Node) {
    n.name != [] || BranchKey in n.meta
  }

  /** The node's own label and branch length render and read back. */
  predicate TailOk(n: Node) {
    && PlainLabel(n.name)
    && n.meta.Keys <= {BranchKey}
    && (BranchKey in n.meta ==> LiteralOk(n.meta[BranchKey]))
  }

  /** Every node of the tree has a label and branch length that render and
      read back. */
  predicate PlainNode(n: Node)
    decreases n
  {
    TailOk(n) && forall c | c in n.children :: PlainNode(c)
  }

  /** A plain tree in which, in addition, every child but the last has a
      label or a branch length: the trees the parser of src/node.py reads
      back. */
  predicate Renderable(n: Node)
    decreases n
  {
    && TailOk(n)
    && (forall k | 0 <= k < |n.children| - 1 :: HasTail(n.children[k]))
    && (forall c | c in n.children :: Renderable(c))
  }

  lemma {:induction false} RenderableIsPlain(n: Node)
    requires Renderable(n)
    ensures PlainNode(n)
    decreases n
  {
    forall c | c in n.children
      ensures PlainNode(c)
    {
      RenderableIsPlain(c);
    }
  }

  // ---------------------------------------------------------------------
  // Text facts
  // ---------------------------------------------------------------------

  /** `w` occurs in `s` at `i`. */
  predicate At(s: string, i: nat, w: string)
    decreases |w|
  {
    i + |w| <= |s| && (|w| == 0 || (s[i] == w[0] && At(s, i + 1, w[1..])))
  }

  /** `a + b` occurs at `i`: `a` occurs there and `b` at `m`, just after it. */
  lemma {:induction false} AtConcat(s: string, i: nat, a: string, b: string, m: nat)
    requires At(s, i, a + b) && m == i + |a|
    ensures At(s, i, a) && At(s, m, b)
    decreases |a|
  {
    if a == [] {
      assert a + b == b;
    } else {
      assert (a + b)[1..] == a[1..] + b;
      AtConcat(s, i + 1, a[1..], b, m);
    }
  }

  lemma {:induction false} AtChar(s: string, i: nat, w: string, k: nat)
    requires At(s, i, w) && k < |w|
    ensures s[i + k] == w[k]
    decreases k
  {
    if k > 0 {
      AtChar(s, i + 1, w[1..], k - 1);
    }
  }

  /** A slice of `s` is the text found there. */
  lemma AtSlice(s: string, i: nat, w: string)
    requires At(s, i, w)
    ensures s[i..i + |w|] == w
  {
    forall k | 0 <= k < |w|
      ensures s[i..i + |w|][k] == w[k]
    {
      AtChar(s, i, w, k);
    }
  }

  /** Text occurs at the start of any extension of it. */
  lemma {:induction false} AtPrefix(w: string, x: string)
    ensures At(w + x, 0, w)
    decreases |w|
  {
    if w != [] {
      AtPrefix(w[1..], x);
      AtShift(w[0], w[1..] + x, 0, w[1..]);
      assert [w[0]] + (w[1..] + x) == w + x;
    }
  }

  lemma {:induction false} AtShift(c: char, s: string, i: nat, w: string)
    requires At(s, i, w)
    ensures At([c] + s, i + 1, w)
    decreases |w|
  {
    if w != [] {
      AtShift(c, s, i + 1, w[1..]);
    }
  }

  /** Characters that may appear in a rendering: none is `[`, a quote or
      whitespace. */
  predicate PlainChar(c: char) {
    c != '[' && !IsQuote(c) && !IsSpace(c)
  }

  predicate PlainText(s: string) {
    forall k | 0 <= k < |s| :: PlainChar(s[k])
  }

  lemma PlainConcat(a: string, b: string)
    requires PlainText(a) && PlainText(b)
    ensures PlainText(a + b)
  {
    forall k | 0 <= k < |a + b|
      ensures PlainChar((a + b)[k])
    {
      if k >= |a| {
        assert (a + b)[k] == b[k - |a|];
      }
    }
  }

  // ---------------------------------------------------------------------
  // Branch-length literals
  // ---------------------------------------------------------------------

  lemma IntToStringChars(x: int)
    ensures |IntToString(x)| > 0
    ensures forall k | 0 <= k < |IntToString(x)| :: IsDigit(IntToString(x)[k]) || IntToString(x)[k] == '-'
  {
    if x < 0 {
      var d := NatToString(-x);
      forall k | 0 <= k < |IntToString(x)|
        ensures IsDigit(IntToString(x)[k]) || IntToString(x)[k] == '-'
      {
        if k > 0 {
          assert IntToString(x)[k] == d[k - 1];
        }
      }
    }
  }

  /** A well-formed rest of a float literal still holds its '.' when the
      scan is in the whole part. */
  lemma {:induction false} FloatFromPoint(lit: string, i: nat, digit: bool)
    requires i <= |lit| && FloatFrom(lit, i, Whole, digit)
    ensures IndexOf(lit, i, '.') < |lit|
    decreases |lit| - i
  {
    if IsDigit(lit[i]) {
      FloatFromPoint(lit, i + 1, true);
    }
  }

  lemma {:induction false} FloatFromChars(lit: string, i: nat, part: FloatPart, digit: bool)
    requires i <= |lit| && FloatFrom(lit, i, part, digit)
    ensures forall k | i <= k < |lit| :: NumberChar(lit[k])
    decreases |lit| - i
  {
    if i < |lit| {
      var next := FloatStep(lit[i], part, digit).value;
      FloatFromChars(lit, i + 1, next.0, next.1);
    }
  }

  lemma FloatHasPoint(t: string)
    requires FloatSyntax(t)
    ensures '.' in t && |t| > 0
    ensures forall k | 0 <= k < |t| :: NumberChar(t[k])
  {
    var a := SignLength(t);
    FloatFromPoint(t, a, false);
    assert t[IndexOf(t, a, '.')] == '.';
    FloatFromChars(t, a, Whole, false);
  }

  lemma NoPointInInt(x: int)
    ensures '.' !in IntToString(x)
  {
    var lit := IntToString(x);
    IntToStringChars(x);
    assert forall k | 0 <= k < |lit| :: lit[k] != '.';
  }

  /** `int()` of a run of digits, with or without a leading minus sign. */
  lemma IntValueOfDigits(d: string, v: nat)
    requires |d| > 0 && !IsSign(d[0])
    requires DigitsValue(d, 0, |d|) == Some(v)
    ensures IntValue(d) == Some(v)
    ensures IntValue("-" + d) == Some(-(v as int))
  {
    var t := "-" + d;
    assert forall k | 1 <= k < 1 + |d| :: t[k] == d[k - 1];
    DigitsValueShift(t, 1, d, 0, |d|);
    assert IsSign(t[0]) && t[0] == '-';
  }

  lemma IntValueOfNegative(x: int)
    requires x < 0
    ensures IntValue(IntToString(x)) == Some(x)
  {
    var d := NatToString(-x);
    DigitsValueOfNatToString(-x);
    assert IsDigit(d[0]);
    IntValueOfDigits(d, -x);
  }

  lemma IntValueOfNonNegative(x: int)
    requires x >= 0
    ensures IntValue(IntToString(x)) == Some(x)
  {
    var d := NatToString(x);
    DigitsValueOfNatToString(x);
    assert IsDigit(d[0]);
    IntValueOfDigits(d, x);
  }

  /** The parser reads a rendered branch length back as the same value. */
  lemma LiteralRoundTrip(v: MetaValue)
    requires LiteralOk(v)
    ensures NumberLiteral(LiteralText(v)) == Ok(v)
  {
    match v
    case IntNum(x) =>
      NoPointInInt(x);
      if x < 0 {
        IntValueOfNegative(x);
      } else {
        IntValueOfNonNegative(x);
      }
    case RealNum(t) =>
      FloatHasPoint(t);
  }

  /** A rendered literal is non-empty and made of number characters only. */
  lemma LiteralChars(v: MetaValue)
    requires LiteralOk(v)
    ensures |LiteralText(v)| > 0
    ensures forall k | 0 <= k < |LiteralText(v)| :: NumberChar(LiteralText(v)[k])
  {
    match v
    case IntNum(x) =>
      IntToStringChars(x);
    case RealNum(t) =>
      FloatHasPoint(t);
  }

  // ---------------------------------------------------------------------
  // Renderings are plain text
  // ---------------------------------------------------------------------

  lemma BranchTextPlain(meta: Meta)
    requires BranchKey in meta ==> LiteralOk(meta[BranchKey])
    ensures PlainText(BranchText(meta))
  {
    if BranchKey in meta {
      var lit := LiteralText(meta[BranchKey]);
      LiteralChars(meta[BranchKey]);
      assert PlainText(lit) by {
        forall k | 0 <= k < |lit|
          ensures PlainChar(lit[k])
        {
          assert NumberChar(lit[k]);
        }
      }
      PlainConcat(":", lit);
    }
  }

  lemma TailPlain(n: Node)
    requires TailOk(n)
    ensures PlainText(TailText(n))
  {
    BranchTextPlain(n.meta);
    assert PlainText(n.name);
    PlainConcat(n.name, BranchText(n.meta));
  }

  lemma BracketedPlain(w: string)
    requires PlainText(w)
    ensures PlainText("(" + w + ")")
  {
    PlainConcat("(", w);
    PlainConcat("(" + w, ")");
  }

  lemma {:induction false} RenderPlain(n: Node)
    requires PlainNode(n)
    ensures PlainText(Render(n))
    decreases n, 2
  {
    TailPlain(n);
    ChildrenPlain(n.children);
    PlainConcat(ChildrenText(n.children), TailText(n));
  }

  lemma {:induction false} ChildrenPlain(cs: seq<Node>)
    requires forall c | c in cs :: PlainNode(c)
    ensures PlainText(ChildrenText(cs))
    decreases cs, 1
  {
    if cs != [] {
      RenderListPlain(cs);
      BracketedPlain(RenderList(cs));
    }
  }

  lemma {:induction false} RenderListPlain(cs: seq<Node>)
    requires cs != []
    requires forall c | c in cs :: PlainNode(c)
    ensures PlainText(RenderList(cs))
    decreases cs, 0
  {
    RenderPlain(cs[0]);
    if |cs| > 1 {
      RenderListPlain(cs[1..]);
      PlainConcat(Render(cs[0]), ",");
      PlainConcat(Render(cs[0]) + ",", RenderList(cs[1..]));
    }
  }

  // ---------------------------------------------------------------------
  // The round trip
  // ---------------------------------------------------------------------

  /** A character the parser accepts right after a node. */
  predicate Closer(c: char) {
    c == ',' || c == ')' || c == ';'
  }

  /** One step of each parser function, stated on its parts' results. */
  lemma LabelledNodeStep(s: string, k: nat, cs: seq<Node>, name: string, m: nat, meta: Meta, e: nat)
    requires k < |s|
    requires LabelStep(s, k) == Ok((name, m))
    requires m <= |s| && NodeTail(s, m) == Ok((meta, e))
    ensures LabelledNode(s, k, cs) == Ok((Node(name, meta, cs), e))
  {
  }

  lemma ParseNodeStep(s: string, i: nat, cs: seq<Node>, k: nat, r: Parse<(Node, nat)>)
    requires i < |s| && !IsSpace(s[i])
    requires ParseChildren(s, i) == Ok((cs, k))
    requires k < |s| && LabelledNode(s, k, cs) == r
    ensures ParseNode(s, i) == r
  {
    assert SkipWhitespace(s, i) == i;
  }

  lemma ParseChildrenStep(s: string, j: nat, c: Node, m: nat, rest: seq<Node>, e: nat)
    requires j < |s| && (s[j] == '(' || s[j] == ',')
    requires ParseNode(s, j + 1) == Ok((c, m))
    requires m < |s| && !IsSpace(s[m])
    requires ParseChildren(s, m) == Ok((rest, e))
    ensures ParseChildren(s, j) == Ok(([c] + rest, e))
  {
    assert SkipWhitespace(s, m) == m;
  }

  lemma BranchLengthStep(s: string, k: nat, lit: string, v: MetaValue, e: nat)
    requires k < |s| && s[k] == ':'
    requires SkipWhitespace(s, k + 1) == k + 1
    requires ScanTo(s, k + 1, LiteralEnd) == e && e < |s|
    requires lit == s[k + 1..e] && NumberLiteral(lit) == Ok(v)
    requires SkipWhitespace(s, e) == e
    ensures BranchLength(s, k) == Ok((map[BranchKey := v], e))
  {
  }

  lemma NodeTailStep(s: string, k: nat, meta: Meta, m: nat, e: nat)
    requires k < |s|
    requires BranchLength(s, k) == Ok((meta, m))
    requires NodeEnd(s, m) == Ok(e)
    ensures NodeTail(s, k) == Ok((meta, e))
  {
  }

  lemma NoMoreChildren(s: string, j: nat)
    requires j < |s| && s[j] != '(' && s[j] != ','
    ensures ParseChildren(s, j) == Ok(([], j))
  {
  }

  /** A plain label followed by `:` or a closer is read up to that
      character. */
  lemma LabelParses(name: string, s: string, k: nat, m: nat)
    requires PlainLabel(name) && At(s, k, name) && m == k + |name|
    requires m < |s| && (s[m] == ':' || Closer(s[m]))
    ensures LabelStep(s, k) == Ok((name, m))
  {
    assert SkipWhitespace(s, m) == m;
    if name != [] {
      AtChar(s, k, name, 0);
      assert LabelChar(name[0]);
      forall j | k + 1 <= j < m
        ensures !EndsLabel(s[j])
      {
        AtChar(s, k, name, j - k);
        assert LabelChar(name[j - k]);
      }
      ScanToStopsAt(s, k + 1, LabelEnd, m);
      AtSlice(s, k, name);
    }
  }

  /** A rendered literal is read up to the character after it. */
  lemma LiteralScan(s: string, k: nat, lit: string, e: nat)
    requires |lit| > 0 && forall j | 0 <= j < |lit| :: NumberChar(lit[j])
    requires At(s, k, lit) && e == k + |lit|
    requires e < |s| && Closer(s[e])
    ensures SkipWhitespace(s, k) == k
    ensures ScanTo(s, k, LiteralEnd) == e
    ensures SkipWhitespace(s, e) == e
  {
    AtChar(s, k, lit, 0);
    assert NumberChar(lit[0]);
    forall j | k <= j < e
      ensures !EndsLiteral(s[j])
    {
      AtChar(s, k, lit, j - k);
      assert NumberChar(lit[j - k]);
    }
    ScanToStopsAt(s, k, LiteralEnd, e);
  }

  /** A rendered `:` and branch length is read back as the same value. */
  lemma BranchLengthParses(v: MetaValue, s: string, k: nat, e: nat)
    requires LiteralOk(v)
    requires At(s, k, ":" + LiteralText(v)) && e == k + 1 + |LiteralText(v)|
    requires e < |s| && Closer(s[e])
    ensures BranchLength(s, k) == Ok((map[BranchKey := v], e))
  {
    var lit := LiteralText(v);
    AtConcat(s, k, ":", lit, k + 1);
    AtChar(s, k, ":", 0);
    LiteralChars(v);
    LiteralScan(s, k + 1, lit, e);
    AtSlice(s, k + 1, lit);
    LiteralRoundTrip(v);
    BranchLengthStep(s, k, lit, v, e);
  }

  /** The branch length and the end of a rendered node. */
  lemma BranchParses(meta: Meta, s: string, k: nat, e: nat, end: nat)
    requires meta.Keys <= {BranchKey}
    requires BranchKey in meta ==> LiteralOk(meta[BranchKey])
    requires At(s, k, BranchText(meta)) && e == k + |BranchText(meta)|
    requires e < |s| && Closer(s[e]) && end == if s[e] == ')' then e + 1 else e
    ensures NodeTail(s, k) == Ok((meta, end))
  {
    assert NodeEnd(s, e) == Ok(end);
    if BranchKey in meta {
      var v := meta[BranchKey];
      BranchLengthParses(v, s, k, e);
      assert map[BranchKey := v] == meta;
    } else {
      assert meta == map[];
      assert BranchLength(s, k) == Ok((meta, k));
    }
    NodeTailStep(s, k, meta, e, end);
  }

  /** The label, branch length and end of a rendered node parse back. */
  lemma TailParses(n: Node, s: string, k: nat, m: nat, e: nat, end: nat)
    requires TailOk(n)
    requires At(s, k, TailText(n))
    requires m == k + |n.name| && e == m + |BranchText(n.meta)|
    requires e < |s| && Closer(s[e]) && end == if s[e] == ')' then e + 1 else e
    ensures LabelledNode(s, k, n.children) == Ok((n, end))
  {
    var b := BranchText(n.meta);
    AtConcat(s, k, n.name, b, m);
    if BranchKey in n.meta {
      AtChar(s, m, b, 0);
    }
    LabelParses(n.name, s, k, m);
    BranchParses(n.meta, s, m, e, end);
    LabelledNodeStep(s, k, n.children, n.name, m, n.meta, end);
  }

  /** The first character after a rendered node's children. */
  lemma TailStart(n: Node, s: string, k: nat, e: nat)
    requires PlainLabel(n.name)
    requires At(s, k, TailText(n)) && e == k + |n.name| + |BranchText(n.meta)|
    requires e < |s| && Closer(s[e]) && (s[e] == ',' ==> HasTail(n))
    ensures s[k] != '(' && s[k] != ',' && !IsSpace(s[k])
  {
    var b := BranchText(n.meta);
    AtConcat(s, k, n.name, b, k + |n.name|);
    if n.name != [] {
      AtChar(s, k, n.name, 0);
      assert LabelChar(n.name[0]);
    } else if BranchKey in n.meta {
      AtChar(s, k, b, 0);
    }
  }

  lemma SplitLast(s: string, i: nat, r: string, e: nat)
    requires At(s, i, r + ")") && e == i + |r|
    ensures At(s, i, r) && e < |s| && s[e] == ')'
  {
    AtConcat(s, i, r, ")", e);
    AtChar(s, e, ")", 0);
  }

  lemma SplitFirst(s: string, i: nat, r: string, w: string, e: nat)
    requires At(s, i, r + "," + w + ")") && e == i + |r|
    ensures At(s, i, r) && e < |s| && s[e] == ',' && At(s, e + 1, w + ")")
  {
    assert r + "," + w + ")" == r + ("," + (w + ")"));
    AtConcat(s, i, r, "," + (w + ")"), e);
    AtConcat(s, e, ",", w + ")", e + 1);
    AtChar(s, e, ",", 0);
  }

  lemma SplitBracketed(s: string, i: nat, w: string)
    requires At(s, i, "(" + w + ")")
    ensures s[i] == '(' && At(s, i + 1, w + ")")
  {
    assert "(" + w + ")" == "(" + (w + ")");
    AtConcat(s, i, "(", w + ")", i + 1);
    AtChar(s, i, "(", 0);
  }

  /** A rendered node followed at `e` by `,`, `)` or `;` parses back; the
      parse stops on the `,` or `;`, or just past the `)`. */
  lemma {:induction false} ParseRendered(n: Node, s: string, i: nat, e: nat, end: nat)
    requires Renderable(n)
    requires At(s, i, Render(n)) && e == i + |Render(n)|
    requires e < |s| && Closer(s[e]) && (s[e] == ',' ==> HasTail(n))
    requires end == if s[e] == ')' then e + 1 else e
    ensures ParseNode(s, i) == Ok((n, end))
    decreases n, 3
  {
    var k := i + |ChildrenText(n.children)|;
    AtConcat(s, i, ChildrenText(n.children), TailText(n), k);
    TailParses(n, s, k, k + |n.name|, e, end);
    TailStart(n, s, k, e);
    ChildrenParse(n.children, s, i, k);
    ParseNodeStep(s, i, n.children, k, Ok((n, end)));
  }

  /** The children of a rendered node parse back, and the text after them
      is the node's label or branch length or what follows the node. */
  lemma {:induction false} ChildrenParse(cs: seq<Node>, s: string, i: nat, k: nat)
    requires forall c | c in cs :: Renderable(c)
    requires forall j | 0 <= j < |cs| - 1 :: HasTail(cs[j])
    requires At(s, i, ChildrenText(cs))
    requires k == i + |ChildrenText(cs)|
    requires k < |s| && s[k] != '(' && s[k] != ',' && !IsSpace(s[k])
    ensures ParseChildren(s, i) == Ok((cs, k))
    ensures !IsSpace(s[i])
    decreases cs, 2
  {
    if cs == [] {
      NoMoreChildren(s, i);
    } else {
      SplitBracketed(s, i, RenderList(cs));
      ParseRenderedChildren(cs, s, i, k);
    }
  }

  /** Rendered children, after the `(` or `,` at `j`, parse back in order;
      the last one consumes the closing `)`. */
  lemma {:induction false} ParseRenderedChildren(cs: seq<Node>, s: string, j: nat, end: nat)
    requires cs != []
    requires forall c | c in cs :: Renderable(c)
    requires forall k | 0 <= k < |cs| - 1 :: HasTail(cs[k])
    requires j < |s| && (s[j] == '(' || s[j] == ',')
    requires At(s, j + 1, RenderList(cs) + ")")
    requires end == j + 1 + |RenderList(cs)| + 1
    requires end < |s| && s[end] != '(' && s[end] != ',' && !IsSpace(s[end])
    ensures ParseChildren(s, j) == Ok((cs, end))
    decreases cs, 1
  {
    if |cs| == 1 {
      LastChildParses(cs, s, j, end);
    } else {
      var e0 := j + 1 + |Render(cs[0])|;
      FirstChildParses(cs, s, j, e0);
      ListTail(cs);
      ParseRenderedChildren(cs[1..], s, e0, end);
      NextChildStep(s, j, cs, e0, end);
    }
  }

  lemma {:induction false} LastChildParses(cs: seq<Node>, s: string, j: nat, end: nat)
    requires |cs| == 1 && Renderable(cs[0])
    requires j < |s| && (s[j] == '(' || s[j] == ',')
    requires At(s, j + 1, RenderList(cs) + ")")
    requires end == j + 1 + |RenderList(cs)| + 1
    requires end < |s| && s[end] != '(' && s[end] != ',' && !IsSpace(s[end])
    ensures ParseChildren(s, j) == Ok((cs, end))
    decreases cs, 0
  {
    var e := j + 1 + |Render(cs[0])|;
    SplitLast(s, j + 1, Render(cs[0]), e);
    ParseRendered(cs[0], s, j + 1, e, end);
    LastChildStep(s, j, cs, end);
  }

  /** The first of several rendered children parses back up to the `,`
      that follows it. */
  lemma {:induction false} FirstChildParses(cs: seq<Node>, s: string, j: nat, e0: nat)
    requires |cs| > 1 && Renderable(cs[0]) && HasTail(cs[0])
    requires j < |s|
    requires At(s, j + 1, RenderList(cs) + ")")
    requires e0 == j + 1 + |Render(cs[0])|
    ensures ParseNode(s, j + 1) == Ok((cs[0], e0))
    ensures e0 < |s| && s[e0] == ',' && At(s, e0 + 1, RenderList(cs[1..]) + ")")
    ensures |RenderList(cs)| == |Render(cs[0])| + 1 + |RenderList(cs[1..])|
    decreases cs, 0
  {
    SplitFirst(s, j + 1, Render(cs[0]), RenderList(cs[1..]), e0);
    ParseRendered(cs[0], s, j + 1, e0, e0);
  }

  /** The conditions on a list of children hold for all but its first. */
  lemma ListTail(cs: seq<Node>)
    requires cs != []
    requires forall c | c in cs :: Renderable(c)
    requires forall k | 0 <= k < |cs| - 1 :: HasTail(cs[k])
    ensures forall c | c in cs[1..] :: Renderable(c)
    ensures forall k | 0 <= k < |cs[1..]| - 1 :: HasTail(cs[1..][k])
  {
    forall c | c in cs[1..] ensures Renderable(c) {
      assert c in cs;
    }
    forall k | 0 <= k < |cs[1..]| - 1 ensures HasTail(cs[1..][k]) {
      assert cs[1..][k] == cs[k + 1];
    }
  }

  lemma LastChildStep(s: string, j: nat, cs: seq<Node>, end: nat)
    requires |cs| == 1
    requires j < |s| && (s[j] == '(' || s[j] == ',')
    requires ParseNode(s, j + 1) == Ok((cs[0], end))
    requires end < |s| && s[end] != '(' && s[end] != ',' && !IsSpace(s[end])
    ensures ParseChildren(s, j) == Ok((cs, end))
  {
    assert cs == [cs[0]] + [];
    NoMoreChildren(s, end);
    ParseChildrenStep(s, j, cs[0], end, [], end);
  }

  lemma NextChildStep(s: string, j: nat, cs: seq<Node>, e0: nat, end: nat)
    requires |cs| > 1
    requires j < |s| && (s[j] == '(' || s[j] == ',')
    requires ParseNode(s, j + 1) == Ok((cs[0], e0))
    requires e0 < |s| && s[e0] == ','
    requires ParseChildren(s, e0) == Ok((cs[1..], end))
    ensures ParseChildren(s, j) == Ok((cs, end))
  {
    assert cs == [cs[0]] + cs[1..];
    ParseChildrenStep(s, j, cs[0], e0, cs[1..], end);
  }

  /** The text of a renderable tree has no comment to strip, and after
      trailing whitespace is removed it ends in the `;`. */
  lemma RenderedTreeText(t: Tree)
    requires PlainNode(t.root)
    ensures StripComments(RenderTree(t)) == Ok(RenderTree(t))
    ensures RStrip(RenderTree(t)) == Render(t.root) + ";"
  {
    var r := Render(t.root);
    var text := RenderTree(t);
    RenderPlain(t.root);
    forall k | 0 <= k < |text|
      ensures text[k] != '[' && !IsQuote(text[k])
    {
      if k < |r| {
        assert text[k] == r[k];
      } else {
        assert text[k] == ';' || text[k] == '\n';
      }
    }
    StripPlainText(text);
    assert text[..|text| - 1] == r + ";";
  }

  /** Rendering a tree and parsing it back under the same name gives the
      tree again. */
  lemma TreeRoundTrip(t: Tree)
    requires Renderable(t.root)
    ensures ParseTree(t.name, RenderTree(t)) == Ok(t)
  {
    var r := Render(t.root);
    var u := r + ";";
    RenderableIsPlain(t.root);
    RenderedTreeText(t);
    AtPrefix(r, ";");
    ParseRendered(t.root, u, 0, |r|, |r|);
    assert u[|r|] == ';';
  }

  // ---------------------------------------------------------------------
  // Unbalanced parentheses
  // ---------------------------------------------------------------------

  /** Text without comments or quotes whose root parse stops on its final
      `;` is a tree. */
  lemma ParsePlainTree(name: string, s: string, n: Node)
    requires forall k | 0 <= k < |s| :: s[k] != '[' && !IsQuote(s[k])
    requires |s| > 0 && s[|s| - 1] == ';'
    requires ParseNode(s, 0) == Ok((n, |s| - 1))
    ensures ParseTree(name, s) == Ok(Tree(name, n))
  {
    StripPlainText(s);
    assert RStrip(s) == s;
    assert RootEndsOnFinalSemicolon(s);
  }

  /** A one-letter leaf label followed by a closer. */
  lemma LetterLeaf(s: string, i: nat, c: char)
    requires i + 1 < |s| && s[i] == c && LabelChar(c) && Closer(s[i + 1])
    requires s[i + 1] == ')' || s[i + 1] == ','  || s[i + 1] == ';'
    ensures ParseNode(s, i) == Ok((Node([c], map[], []), if s[i + 1] == ')' then i + 2 else i + 1))
  {
    var a := Node([c], map[], []);
    assert PlainLabel([c]);
    assert Render(a) == [c];
    assert At(s, i, [c]);
    ParseRendered(a, s, i, i + 1, if s[i + 1] == ')' then i + 2 else i + 1);
  }

  /** Two leaves after a `(` that is never closed: the `;` ends the second
      leaf and then the root. */
  lemma UnclosedPairParses(u: string, x: char, y: char)
    requires u == ['(', x, ',', y, ';'] && LabelChar(x) && LabelChar(y)
    ensures ParseNode(u, 0)
      == Ok((Node("", map[], [Node([x], map[], []), Node([y], map[], [])]), 4))
  {
    var a, b := Node([x], map[], []), Node([y], map[], []);
    LetterLeaf(u, 1, x);
    LetterLeaf(u, 3, y);
    NoMoreChildren(u, 4);
    assert !IsSpace(u[4]) && !IsSpace(u[2]);
    ParseChildrenStep(u, 2, b, 4, [], 4);
    assert [b] + [] == [b];
    ParseChildrenStep(u, 0, a, 2, [b], 4);
    assert [a] + [b] == [a, b];
    assert LabelStep(u, 4) == Ok(("", 4));
    assert NodeTail(u, 4) == Ok((map[], 4));
    LabelledNodeStep(u, 4, [a, b], "", 4, map[], 4);
    ParseNodeStep(u, 0, [a, b], 4, Ok((Node("", map[], [a, b]), 4)));
  }

  /** A `)` ends whichever node is being parsed, so a missing `)` is not
      noticed: `(A,B;` is a root with the children A and B. */
  lemma MissingCloseAccepted(name: string, u: string, x: char, y: char)
    requires u == ['(', x, ',', y, ';'] && LabelChar(x) && LabelChar(y)
    ensures ParseTree(name, u) ==
      Ok(Tree(name, Node("", map[], [Node([x], map[], []), Node([y], map[], [])])))
  {
    UnclosedPairParses(u, x, y);
    ParsePlainTree(name, u, Node("", map[], [Node([x], map[], []), Node([y], map[], [])]));
  }

  /** In `((A,B),C);` the inner `(` starts a run of children that goes on
      past the `)` after B, through C, up to the `;`. */
  lemma ThreeChildrenRun(u: string, x: char, y: char, z: char)
    requires u == ['(', '(', x, ',', y, ')', ',', z, ')', ';']
    requires LabelChar(x) && LabelChar(y) && LabelChar(z)
    ensures ParseChildren(u, 1) == Ok(([Node([x], map[], []), Node([y], map[], []), Node([z], map[], [])], 9))
  {
    var a, b, c := Node([x], map[], []), Node([y], map[], []), Node([z], map[], []);
    LastTwoChildren(u, x, y, z);
    LeafThenMore(u, 1, x, [b, c], 9);
    assert [a] + [b, c] == [a, b, c];
  }

  lemma LastTwoChildren(u: string, x: char, y: char, z: char)
    requires u == ['(', '(', x, ',', y, ')', ',', z, ')', ';']
    requires LabelChar(x) && LabelChar(y) && LabelChar(z)
    ensures ParseChildren(u, 3) == Ok(([Node([y], map[], []), Node([z], map[], [])], 9))
  {
    var b, c := Node([y], map[], []), Node([z], map[], []);
    LastChild(u, z);
    LetterLeaf(u, 4, y);
    assert !IsSpace(u[6]);
    ParseChildrenStep(u, 3, b, 6, [c], 9);
    assert [b] + [c] == [b, c];
  }

  /** A one-letter leaf after a `(` or `,`, followed by `,` and more
      children. */
  lemma LeafThenMore(s: string, j: nat, x: char, rest: seq<Node>, e: nat)
    requires j + 2 < |s| && (s[j] == '(' || s[j] == ',') && s[j + 1] == x && LabelChar(x) && s[j + 2] == ','
    requires ParseChildren(s, j + 2) == Ok((rest, e))
    ensures ParseChildren(s, j) == Ok(([Node([x], map[], [])] + rest, e))
  {
    LetterLeaf(s, j + 1, x);
    ParseChildrenStep(s, j, Node([x], map[], []), j + 2, rest, e);
  }

  lemma LastChild(u: string, z: char)
    requires |u| == 10 && u[6] == ',' && u[7] == z && u[8] == ')' && u[9] == ';' && LabelChar(z)
    ensures ParseChildren(u, 6) == Ok(([Node([z], map[], [])], 9))
  {
    var c := Node([z], map[], []);
    LetterLeaf(u, 7, z);
    assert !IsSpace(u[9]);
    NoMoreChildren(u, 9);
    ParseChildrenStep(u, 6, c, 9, [], 9);
    assert [c] + [] == [c];
  }

  /** A node with no label or branch length whose children stop at `;`. */
  lemma BareNodeAtSemicolon(s: string, i: nat, cs: seq<Node>, k: nat)
    requires i < |s| && !IsSpace(s[i])
    requires ParseChildren(s, i) == Ok((cs, k))
    requires k < |s| && s[k] == ';'
    ensures ParseNode(s, i) == Ok((Node("", map[], cs), k))
  {
    assert LabelStep(s, k) == Ok(("", k));
    assert BranchLength(s, k) == Ok((map[], k));
    assert NodeTail(s, k) == Ok((map[], k));
    LabelledNodeStep(s, k, cs, "", k, map[], k);
    ParseNodeStep(s, i, cs, k, Ok((Node("", map[], cs), k)));
  }

  /** The `)` after B ends B, not the clade of A and B, so the `,` after it
      starts a third child of that clade: `((A,B),C);` is read as a root
      whose one child has the children A, B and C. */
  lemma SiblingAbsorbed(name: string, u: string, x: char, y: char, z: char)
    requires u == ['(', '(', x, ',', y, ')', ',', z, ')', ';']
    requires LabelChar(x) && LabelChar(y) && LabelChar(z)
    ensures ParseTree(name, u) == Ok(Tree(name,
      Node("", map[], [Node("", map[], [Node([x], map[], []), Node([y], map[], []), Node([z], map[], [])])])))
  {
    var abc := [Node([x], map[], []), Node([y], map[], []), Node([z], map[], [])];
    var root := Node("", map[], [Node("", map[], abc)]);
    AbsorbingRoot(u, x, y, z);
    assert forall k | 0 <= k < |u| :: u[k] in {'(', ',', ')', ';', x, y, z};
    ParsePlainTree(name, u, root);
  }

  lemma AbsorbingRoot(u: string, x: char, y: char, z: char)
    requires u == ['(', '(', x, ',', y, ')', ',', z, ')', ';']
    requires LabelChar(x) && LabelChar(y) && LabelChar(z)
    ensures ParseNode(u, 0) ==
      Ok((Node("", map[], [Node("", map[], [Node([x], map[], []), Node([y], map[], []), Node([z], map[], [])])]), 9))
  {
    var abc := [Node([x], map[], []), Node([y], map[], []), Node([z], map[], [])];
    var clade := Node("", map[], abc);
    ThreeChildrenRun(u, x, y, z);
    BareNodeAtSemicolon(u, 1, abc, 9);
    OnlyChild(u, clade, 9);
    BareNodeAtSemicolon(u, 0, [clade], 9);
  }

  /** A `(` followed by one node that stops at `;`. */
  lemma OnlyChild(s: string, c: Node, e: nat)
    requires |s| > 1 && s[0] == '(' && e < |s| && s[e] == ';'
    requires ParseNode(s, 1) == Ok((c, e))
    ensures ParseChildren(s, 0) == Ok(([c], e))
  {
    NoMoreChildren(s, e);
    ParseChildrenStep(s, 0, c, e, [], e);
    assert [c] + [] == [c];
  }

  /** An unmatched `)` ends the root as well: `A);` is the leaf A. */
  lemma ExtraCloseAccepted(name: string, v: string, x: char)
    requires v == [x, ')', ';'] && LabelChar(x)
    ensures ParseTree(name, v) == Ok(Tree(name, Node([x], map[], [])))
  {
    LetterLeaf(v, 0, x);
    ParsePlainTree(name, v, Node([x], map[], []));
  }
}
