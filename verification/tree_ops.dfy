/** The whole-tree operations of src/tanos/tree.py.

    The node-level methods these call (`Node.scoreResiliency`,
    `replaceBranchLenWithOtherValue`, `replaceInternalLabelWithOtherValue`,
    the Newick and JSON renderers, `str()` of a metadata value) live in
    src/tanos/node.py, which is not part of this model; they are parameters
    here. The traversal they all rely on,
    `generateNodesViaDepthFirstTraversal`, is post-order: the traversals of
    the children in order, then the node itself. */
module TreeOps {
  import opened Wrappers
  import opened Text
  import opened NewickNode
  import opened NewickTree
  import NewickRender

  // ---------------------------------------------------------------------
  // Post-order
  // ---------------------------------------------------------------------

  /** The number of nodes in a subtree. */
  function Size(n: Node): (k: nat)
    ensures k >= 1
    decreases n, 1
  {
    1 + ForestSize(n.children)
  }

  function ForestSize(cs: seq<Node>): nat
    decreases cs, 0
  {
    if |cs| == 0 then 0 else Size(cs[0]) + ForestSize(cs[1..])
  }

  /** The nodes of a subtree in the order the traversal yields them. */
  function PostOrder(n: Node): (p: seq<Node>)
    ensures |p| == Size(n) && p[|p| - 1] == n
    decreases n, 1
  {
    ForestPostOrder(n.children) + [n]
  }

  function ForestPostOrder(cs: seq<Node>): (p: seq<Node>)
    ensures |p| == ForestSize(cs)
    decreases cs, 0
  {
    if |cs| == 0 then [] else PostOrder(cs[0]) + ForestPostOrder(cs[1..])
  }

  // ---------------------------------------------------------------------
  // Positions and in-place updates
  // ---------------------------------------------------------------------

  /** A position in a tree: the child indices on the way down from the root. */
  type Path = seq<nat>

  /** The node at a position, if there is one. */
  function Subtree(n: Node, p: Path): Option<Node>
    decreases |p|
  {
    if p == [] then Some(n)
    else if p[0] < |n.children| then Subtree(n.children[p[0]], p[1..])
    else None
  }

  /** The positions of a subtree's nodes, in post-order. */
  function PostOrderPaths(n: Node): (ps: seq<Path>)
    ensures |ps| == Size(n)
    decreases n, 1
  {
    ForestPaths(n.children, 0) + [[]]
  }

  /** The positions of the nodes of `cs`, the children of some node from
      index `i` on, relative to that node. */
  function ForestPaths(cs: seq<Node>, i: nat): (ps: seq<Path>)
    ensures |ps| == ForestSize(cs)
    decreases cs, 0
  {
    if |cs| == 0 then [] else Lift(i, PostOrderPaths(cs[0])) + ForestPaths(cs[1..], i + 1)
  }

  /** Positions below child `i`. */
  function Lift(i: nat, ps: seq<Path>): (r: seq<Path>)
    ensures |r| == |ps|
    ensures forall k | 0 <= k < |ps| :: r[k] == [i] + ps[k]
  {
    seq(|ps|, k requires 0 <= k < |ps| => [i] + ps[k])
  }

  /** What a node-level operation does to one node: it computes a new label
      and new metadata from the node as it is when visited; the children are
      left alone. */
  type Step = Node -> (string, Meta)

  function Relabel(n: Node, step: Step): (r: Node)
    ensures r.children == n.children
  {
    var v := step(n);
    Node(v.0, v.1, n.children)
  }

  /** Mutating the node at position `p` in place. */
  function UpdateAt(n: Node, p: Path, step: Step): Node
    decreases |p|
  {
    if p == [] then Relabel(n, step)
    else if p[0] < |n.children| then
      n.(children := n.children[p[0] := UpdateAt(n.children[p[0]], p[1..], step)])
    else n
  }

  /** src/tanos/tree.py:47-48, 52-53, 56-57: the loop over the traversal,
      applying the node-level operation to the node at each position in turn. */
  function ApplyAll(n: Node, ps: seq<Path>, step: Step): Node
    decreases |ps|
  {
    if ps == [] then n else ApplyAll(UpdateAt(n, ps[0], step), ps[1..], step)
  }

  /** The same operation as a bottom-up rewrite: every node is visited once,
      after all of its descendants. */
  function MapPostOrder(n: Node, step: Step): (r: Node)
    ensures r.children == MapForest(n.children, step)
    decreases n, 1
  {
    Relabel(Node(n.name, n.meta, MapForest(n.children, step)), step)
  }

  function MapForest(cs: seq<Node>, step: Step): (r: seq<Node>)
    ensures |r| == |cs|
    decreases cs, 0
  {
    if cs == [] then [] else [MapPostOrder(cs[0], step)] + MapForest(cs[1..], step)
  }

  lemma {:induction false} ApplyAllConcat(n: Node, p: seq<Path>, q: seq<Path>, step: Step)
    ensures ApplyAll(n, p + q, step) == ApplyAll(ApplyAll(n, p, step), q, step)
    decreases |p|
  {
    if p == [] {
      assert p + q == q;
    } else {
      assert (p + q)[1..] == p[1..] + q;
      ApplyAllConcat(UpdateAt(n, p[0], step), p[1..], q, step);
    }
  }

  /** Updates below child `i` act on that child alone. */
  lemma {:induction false} ApplyAllLifted(n: Node, i: nat, ps: seq<Path>, step: Step)
    requires i < |n.children|
    ensures ApplyAll(n, Lift(i, ps), step)
         == n.(children := n.children[i := ApplyAll(n.children[i], ps, step)])
    decreases |ps|
  {
    if ps != [] {
      var p := [i] + ps[0];
      assert p[0] == i && p[1..] == ps[0];
      var n1 := UpdateAt(n, p, step);
      assert Lift(i, ps)[1..] == Lift(i, ps[1..]);
      ApplyAllLifted(n1, i, ps[1..], step);
    }
  }

  /** Replacing the first of the children after `pre`. */
  lemma SpliceChild(pre: seq<Node>, cs: seq<Node>, m: Node, rest: seq<Node>)
    requires cs != []
    ensures (pre + cs)[|pre| := m] == (pre + [m]) + cs[1..]
    ensures (pre + [m]) + rest == pre + ([m] + rest)
  {
    assert (pre + cs)[|pre| := m] == pre + ([m] + cs[1..]);
  }

  /** The loop over the children's positions rewrites those children
      bottom-up and leaves the earlier ones alone. */
  lemma {:induction false} ApplyAllForest(n: Node, pre: seq<Node>, cs: seq<Node>, step: Step)
    requires n.children == pre + cs
    ensures ApplyAll(n, ForestPaths(cs, |pre|), step)
         == n.(children := pre + MapForest(cs, step))
    decreases cs, 0
  {
    if cs == [] {
      assert pre + [] == pre;
    } else {
      var i := |pre|;
      var first := Lift(i, PostOrderPaths(cs[0]));
      var rest := ForestPaths(cs[1..], i + 1);
      assert ForestPaths(cs, i) == first + rest;
      ApplyAllConcat(n, first, rest, step);
      var m := MapPostOrder(cs[0], step);
      var n1 := n.(children := n.children[i := m]);
      assert ApplyAll(n, first, step) == n1 by {
        ApplyAllLifted(n, i, PostOrderPaths(cs[0]), step);
        ApplyAllPostOrder(cs[0], step);
      }
      SpliceChild(pre, cs, m, MapForest(cs[1..], step));
      ApplyAllForest(n1, pre + [m], cs[1..], step);
    }
  }

  /** Running the loop over the post-order positions of a tree is the
      bottom-up rewrite: each node is handed to the operation exactly once,
      with its children already updated. */
  lemma {:induction false} ApplyAllPostOrder(n: Node, step: Step)
    ensures ApplyAll(n, PostOrderPaths(n), step) == MapPostOrder(n, step)
    decreases n, 1
  {
    var kids := ForestPaths(n.children, 0);
    ApplyAllConcat(n, kids, [[]], step);
    assert n.children == [] + n.children;
    ApplyAllForest(n, [], n.children, step);
    assert [] + MapForest(n.children, step) == MapForest(n.children, step);
  }

  /** Following child `i` first. */
  lemma SubtreeLifted(n: Node, i: nat, p: Path)
    requires i < |n.children|
    ensures Subtree(n, [i] + p) == Subtree(n.children[i], p)
  {
    assert ([i] + p)[0] == i && ([i] + p)[1..] == p;
  }

  /** The k-th position of the children's walk holds the k-th node of
      their post-order. */
  lemma {:induction false} ForestPathsFind(n: Node, pre: seq<Node>, cs: seq<Node>)
    requires n.children == pre + cs
    ensures forall k | 0 <= k < ForestSize(cs) ::
      Subtree(n, ForestPaths(cs, |pre|)[k]) == Some(ForestPostOrder(cs)[k])
    decreases cs, 0
  {
    if cs != [] {
      var i := |pre|;
      var ps := PostOrderPaths(cs[0]);
      var first := Lift(i, ps);
      var rest := ForestPaths(cs[1..], i + 1);
      assert ForestPaths(cs, i) == first + rest;
      assert ForestPostOrder(cs) == PostOrder(cs[0]) + ForestPostOrder(cs[1..]);
      assert n.children[i] == cs[0];
      PostOrderPathsFind(cs[0]);
      assert n.children == (pre + [cs[0]]) + cs[1..];
      ForestPathsFind(n, pre + [cs[0]], cs[1..]);
      forall k | 0 <= k < ForestSize(cs)
        ensures Subtree(n, ForestPaths(cs, i)[k]) == Some(ForestPostOrder(cs)[k])
      {
        if k < |ps| {
          SubtreeLifted(n, i, ps[k]);
        } else {
          assert ForestPaths(cs, i)[k] == rest[k - |ps|];
        }
      }
    }
  }

  /** The k-th post-order position of a tree holds its k-th post-order node. */
  lemma {:induction false} PostOrderPathsFind(n: Node)
    ensures forall k | 0 <= k < Size(n) ::
      Subtree(n, PostOrderPaths(n)[k]) == Some(PostOrder(n)[k])
    decreases n, 1
  {
    assert n.children == [] + n.children;
    ForestPathsFind(n, [], n.children);
  }

  predicate Distinct(ps: seq<Path>) {
    forall a, b | 0 <= a < b < |ps| :: ps[a] != ps[b]
  }

  /** The children's positions start with the children's indices. */
  lemma {:induction false} ForestPathsHeads(cs: seq<Node>, i: nat)
    ensures forall k | 0 <= k < ForestSize(cs) ::
      |ForestPaths(cs, i)[k]| > 0 && i <= ForestPaths(cs, i)[k][0] < i + |cs|
    decreases cs
  {
    if cs != [] {
      var ps := PostOrderPaths(cs[0]);
      var rest := ForestPaths(cs[1..], i + 1);
      assert ForestPaths(cs, i) == Lift(i, ps) + rest;
      ForestPathsHeads(cs[1..], i + 1);
      forall k | 0 <= k < ForestSize(cs)
        ensures |ForestPaths(cs, i)[k]| > 0 && i <= ForestPaths(cs, i)[k][0] < i + |cs|
      {
        if k < |ps| {
          assert ForestPaths(cs, i)[k] == [i] + ps[k];
        } else {
          assert ForestPaths(cs, i)[k] == rest[k - |ps|];
        }
      }
    }
  }

  /** No position is listed twice among the children's positions. */
  lemma {:induction false} ForestPathsDistinct(cs: seq<Node>, i: nat)
    ensures Distinct(ForestPaths(cs, i))
    decreases cs, 0
  {
    if cs != [] {
      var ps := PostOrderPaths(cs[0]);
      var first := Lift(i, ps);
      var rest := ForestPaths(cs[1..], i + 1);
      var all := first + rest;
      assert ForestPaths(cs, i) == all;
      PostOrderPathsDistinct(cs[0]);
      ForestPathsDistinct(cs[1..], i + 1);
      ForestPathsHeads(cs[1..], i + 1);
      forall a, b | 0 <= a < b < |all|
        ensures all[a] != all[b]
      {
        if b < |ps| {
          assert all[a] == [i] + ps[a] && all[b] == [i] + ps[b];
          assert all[a][1..] == ps[a] && all[b][1..] == ps[b];
        } else if a < |ps| {
          assert all[a][0] == i && all[b] == rest[b - |ps|];
        } else {
          assert all[a] == rest[a - |ps|] && all[b] == rest[b - |ps|];
        }
      }
    }
  }

  /** The traversal lists every position of a tree exactly once. */
  lemma {:induction false} PostOrderPathsDistinct(n: Node)
    ensures Distinct(PostOrderPaths(n))
    decreases n, 1
  {
    var kids := ForestPaths(n.children, 0);
    ForestPathsDistinct(n.children, 0);
    ForestPathsHeads(n.children, 0);
    var all := kids + [[]];
    forall a, b | 0 <= a < b < |all|
      ensures all[a] != all[b]
    {
      if b == |kids| {
        assert |all[a]| > 0;
      }
    }
  }

  // ---------------------------------------------------------------------
  // The operations driven by the traversal
  // ---------------------------------------------------------------------

  /** The loop over all positions of a tree in post-order. */
  function ForEachPostOrder(t: Tree, step: Step): (r: Tree)
    ensures r.name == t.name
    ensures r.root == MapPostOrder(t.root, step)
  {
    ApplyAllPostOrder(t.root, step);
    Tree(t.name, ApplyAll(t.root, PostOrderPaths(t.root), step))
  }

  const ResiliencyKey: string := "taxa-resiliency"

  /** `Node.scoreResiliency` with `meaningful` true: the node's score, as the
      node-level method computes it from the node and its subtree, is stored
      under `taxa-resiliency`. */
  function ScoreStep(score: Node -> MetaValue): Step {
    (n: Node) => (n.name, n.meta[ResiliencyKey := score(n)])
  }

  /** src/tanos/tree.py:46-49: score every node once in post-order, then
      score the root again with `meaningful` false, which forces its score
      to 0. */
  function ScoreResiliency(t: Tree, score: Node -> MetaValue): (r: Tree)
    ensures r.name == t.name && r.root.name == t.root.name
    ensures r.root.children == MapForest(t.root.children, ScoreStep(score))
    ensures r.root.meta == t.root.meta[ResiliencyKey := IntNum(0)]
  {
    var scored := ForEachPostOrder(t, ScoreStep(score)).root;
    Tree(t.name, scored.(meta := scored.meta[ResiliencyKey := IntNum(0)]))
  }

  /** src/tanos/tree.py:51-57: `replaceBranchLenWithOtherValue` and
      `replaceInternalLabelsWithOtherValue` differ only in the node-level
      method they call on every node, in post-order; `op` is that method,
      and `metaKey` is passed to it unchanged. */
  function RewriteWithMeta(t: Tree, metaKey: string, op: (Node, string) -> (string, Meta)): (r: Tree)
    ensures r.name == t.name
    ensures r.root == MapPostOrder(t.root, (n: Node) => op(n, metaKey))
  {
    ForEachPostOrder(t, (n: Node) => op(n, metaKey))
  }

  /** The rewrite keeps the shape of the tree. */
  lemma {:induction false} MapKeepsSize(n: Node, step: Step)
    ensures Size(MapPostOrder(n, step)) == Size(n)
    decreases n, 1
  {
    MapForestKeepsSize(n.children, step);
  }

  lemma {:induction false} MapForestKeepsSize(cs: seq<Node>, step: Step)
    ensures ForestSize(MapForest(cs, step)) == ForestSize(cs)
    decreases cs, 0
  {
    if cs != [] {
      var r := MapForest(cs, step);
      assert r[0] == MapPostOrder(cs[0], step) && r[1..] == MapForest(cs[1..], step);
      MapKeepsSize(cs[0], step);
      MapForestKeepsSize(cs[1..], step);
    }
  }

  // ---------------------------------------------------------------------
  // Serialisation wrappers
  // ---------------------------------------------------------------------

  /** src/tanos/tree.py:59-63: `getNewick` and
      `getNewickWithCommentedMetadata` differ only in the node-level
      renderer; either is the root's text followed by `;` and a newline. */
  function GetNewick(t: Tree, render: Node -> string): (r: string)
    ensures |r| >= 2 && r[..|r| - 2] == render(t.root) && r[|r| - 2..] == ";\n"
  {
    render(t.root) + ";\n"
  }

  /** With the plain Newick renderer of this model, the tree-level output
      parses back to the same tree. */
  lemma GetNewickParses(t: Tree)
    requires NewickRender.Renderable(t.root)
    ensures ParseTree(t.name, GetNewick(t, NewickRender.Render)) == Ok(t)
  {
    assert GetNewick(t, NewickRender.Render) == NewickRender.RenderTree(t);
    NewickRender.TreeRoundTrip(t);
  }

  const JsonOpen: string := "{\"name\":\""
  const JsonMid: string := "\",\"root\":"
  const JsonClose: string := "}"
  const PrettyOpen: string := "{\n\t\"name\": \""
  const PrettyMid: string := "\",\n\t\"root\":\n"
  const PrettyClose: string := "\n}\n"

  /** src/tanos/tree.py:65-66: `{"name":"N","root":R}`; the name is pasted in
      without escaping. */
  function GetJson(t: Tree, json: Node -> string): string {
    JsonOpen + t.name + JsonMid + json(t.root) + JsonClose
  }

  /** src/tanos/tree.py:68-70: the indented variant; `pretty` is the
      node-level renderer called with an indent of 2. */
  function GetPrettyJson(t: Tree, pretty: Node -> string): string {
    PrettyOpen + t.name + PrettyMid + pretty(t.root) + PrettyClose
  }

  /** Reads a wrapper back: the name up to the first `"` after `open`, then
      `mid`, the root text and `close`. */
  function Unwrap(text: string, open: string, mid: string, close: string): (r: Option<(string, string)>)
    ensures r.Some? ==> text == open + r.value.0 + mid + r.value.1 + close
    ensures r.Some? ==> '"' !in r.value.0
  {
    if |open| <= |text| && text[..|open|] == open then
      var k := IndexOf(text, |open|, '"');
      if k + |mid| + |close| <= |text| && text[k..k + |mid|] == mid && text[|text| - |close|..] == close then
        IndexOfSkips(text, |open|, '"');
        assert text == text[..|open|] + text[|open|..k] + text[k..k + |mid|]
          + text[k + |mid|..|text| - |close|] + text[|text| - |close|..];
        Some((text[|open|..k], text[k + |mid|..|text| - |close|]))
      else None
    else None
  }

  /** A wrapper whose name holds no `"` reads back into its name and root
      text. */
  lemma UnwrapWrapped(open: string, name: string, mid: string, root: string, close: string)
    requires '"' !in name && |mid| > 0 && mid[0] == '"'
    ensures Unwrap(open + name + mid + root + close, open, mid, close) == Some((name, root))
  {
    var text := open + name + mid + root + close;
    var k := |open| + |name|;
    assert text[..|open|] == open;
    assert text[k] == '"';
    forall j | |open| <= j < k
      ensures text[j] != '"'
    {
      assert text[j] == name[j - |open|];
    }
    IndexOfFinds(text, |open|, '"', k);
    assert text[k..k + |mid|] == mid;
    assert text[|text| - |close|..] == close;
    assert text[|open|..k] == name;
    assert text[k + |mid|..|text| - |close|] == root;
  }

  /** Both JSON wrappers give back the tree's name and the root's text. */
  lemma JsonRoundTrip(t: Tree, json: Node -> string, pretty: Node -> string)
    requires '"' !in t.name
    ensures Unwrap(GetJson(t, json), JsonOpen, JsonMid, JsonClose) == Some((t.name, json(t.root)))
    ensures Unwrap(GetPrettyJson(t, pretty), PrettyOpen, PrettyMid, PrettyClose) == Some((t.name, pretty(t.root)))
  {
    UnwrapWrapped(JsonOpen, t.name, JsonMid, json(t.root), JsonClose);
    UnwrapWrapped(PrettyOpen, t.name, PrettyMid, pretty(t.root), PrettyClose);
  }

  /** Without escaping, a name holding `"` ends early: the tree named `a"b`
      reads back as a different name. */
  lemma JsonNameNotEscaped(json: Node -> string)
    ensures var t := Tree("a\"b", Node("", map[], []));
      Unwrap(GetJson(t, json), JsonOpen, JsonMid, JsonClose) != Some((t.name, json(t.root)))
  {
  }

  // ---------------------------------------------------------------------
  // Mermaid
  // ---------------------------------------------------------------------

  /** src/tanos/tree.py:84, 89-90: the label, or a space when it is empty;
      with `replaceInternal`, an internal node holding a score shows the
      score instead (`show` is Python's `str()` of a metadata value). */
  function MermaidLabel(n: Node, replaceInternal: bool, show: MetaValue -> string): (l: string)
    ensures n.children == [] || !replaceInternal || ResiliencyKey !in n.meta ==>
      l == if n.name == [] then " " else n.name
    ensures n.children != [] && replaceInternal && ResiliencyKey in n.meta ==> l == show(n.meta[ResiliencyKey])
  {
    if n.children != [] && replaceInternal && ResiliencyKey in n.meta then show(n.meta[ResiliencyKey])
    else if n.name != [] then n.name
    else " "
  }

  /** src/tanos/tree.py:86, 91: `\t{id}[label]` for a leaf and
      `\t{id}((label))` for an internal node. */
  function NodeLine(id: nat, n: Node, replaceInternal: bool, show: MetaValue -> string): string {
    var l := MermaidLabel(n, replaceInternal, show);
    if n.children == [] then "\t" + NatToString(id) + "[" + l + "]\n"
    else "\t" + NatToString(id) + "((" + l + "))\n"
  }

  /** An edge from a parent's id to a child's id. */
  datatype Edge = Edge(parent: nat, child: nat)

  /** src/tanos/tree.py:93. */
  function EdgeLine(e: Edge): string {
    "\t" + NatToString(e.parent) + " --- " + NatToString(e.child) + "\n"
  }

  function EdgesText(es: seq<Edge>): string
    decreases |es|
  {
    if es == [] then "" else EdgeLine(es[0]) + EdgesText(es[1..])
  }

  /** What the loop of src/tanos/tree.py:82-94 accumulates over a subtree:
      the numbered nodes whose lines go into `mmd`, the edges whose lines go
      into `gfa`, and the leaf ids. */
  datatype Walk = Walk(nodes: seq<(nat, Node)>, edges: seq<Edge>, leaves: seq<nat>)

  /** The loop's contribution for a subtree whose first node in post-order
      gets id `base`: the children's contributions, then the node with its
      id and, for an internal node, one edge per child. */
  function WalkNode(n: Node, base: nat): (w: Walk)
    ensures |w.edges| == Size(n) - 1
    decreases n, 1
  {
    var f := WalkForest(n.children, base);
    var id := base + ForestSize(n.children);
    if |n.children| == 0 then Walk(f.nodes + [(id, n)], f.edges, f.leaves + [id])
    else Walk(f.nodes + [(id, n)], f.edges + ChildEdges(id, n.children, base), f.leaves)
  }

  function WalkForest(cs: seq<Node>, base: nat): (w: Walk)
    ensures |w.edges| + |cs| == ForestSize(cs)
    decreases cs, 0
  {
    if |cs| == 0 then Walk([], [], [])
    else
      var a := WalkNode(cs[0], base);
      var b := WalkForest(cs[1..], base + Size(cs[0]));
      Walk(a.nodes + b.nodes, a.edges + b.edges, a.leaves + b.leaves)
  }

  /** The edges from `id` to the children `cs`, whose subtrees take the ids
      from `base` on; a child's id is the last of its subtree's. */
  function ChildEdges(id: nat, cs: seq<Node>, base: nat): (es: seq<Edge>)
    ensures |es| == |cs|
    decreases cs
  {
    if |cs| == 0 then [] else [Edge(id, base + Size(cs[0]) - 1)] + ChildEdges(id, cs[1..], base + Size(cs[0]))
  }

  function NodeLines(ns: seq<(nat, Node)>, replaceInternal: bool, show: MetaValue -> string): string
    decreases |ns|
  {
    if ns == [] then "" else NodeLine(ns[0].0, ns[0].1, replaceInternal, show) + NodeLines(ns[1..], replaceInternal, show)
  }

  function Ids(n: nat): (r: seq<nat>)
    ensures |r| == n && forall k | 0 <= k < n :: r[k] == k
  {
    seq(n, k => k)
  }

  /** src/tanos/tree.py:75-100. */
  function GetMermaid(t: Tree, replaceInternal: bool, show: MetaValue -> string): string {
    var w := WalkNode(t.root, 0);
    "graph LR\n" + NodeLines(w.nodes, replaceInternal, show) + EdgesText(w.edges)
      + "\tclassDef nodes fill:#eee,stroke:#fff,stroke-width:0px,color:black;\n"
      + "\tclassDef leaf-nodes fill:#fff;\n"
      + "\tclass " + JoinNats(Ids(Size(t.root)), ",") + " nodes;\n"
      + "\tclass " + JoinNats(w.leaves, ",") + " leaf-nodes;\n"
  }

  // Reference definitions over the flat post-order sequence

  /** A run of nodes numbered consecutively from `base`. */
  function Numbered(p: seq<Node>, base: nat): (r: seq<(nat, Node)>)
    ensures |r| == |p|
    decreases |p|
  {
    if p == [] then [] else [(base, p[0])] + Numbered(p[1..], base + 1)
  }

  /** The k-th node of the run gets the id `base + k`. */
  lemma {:induction false} NumberedAt(p: seq<Node>, base: nat)
    ensures forall k | 0 <= k < |p| :: Numbered(p, base)[k] == (base + k, p[k])
    decreases |p|
  {
    if p != [] {
      NumberedAt(p[1..], base + 1);
    }
  }

  /** The ids of the leaves in a run of nodes numbered from `base`. */
  function LeafIds(p: seq<Node>, base: nat): seq<nat>
    decreases |p|
  {
    if p == [] then [] else (if p[0].children == [] then [base] else []) + LeafIds(p[1..], base + 1)
  }

  lemma {:induction false} NumberedConcat(p: seq<Node>, q: seq<Node>, base: nat)
    ensures Numbered(p + q, base) == Numbered(p, base) + Numbered(q, base + |p|)
    decreases |p|
  {
    if p == [] {
      assert p + q == q;
    } else {
      assert (p + q)[0] == p[0] && (p + q)[1..] == p[1..] + q;
      NumberedConcat(p[1..], q, base + 1);
    }
  }

  lemma {:induction false} LeafIdsConcat(p: seq<Node>, q: seq<Node>, base: nat)
    ensures LeafIds(p + q, base) == LeafIds(p, base) + LeafIds(q, base + |p|)
    decreases |p|
  {
    if p == [] {
      assert p + q == q;
    } else {
      assert (p + q)[0] == p[0] && (p + q)[1..] == p[1..] + q;
      LeafIdsConcat(p[1..], q, base + 1);
    }
  }

  lemma LeafIdsOne(n: Node, id: nat)
    ensures LeafIds([n], id) == if n.children == [] then [id] else []
  {
    assert [n][1..] == [];
  }

  /** The walk numbers the nodes consecutively in post-order. */
  lemma {:induction false} WalkIsNumbered(n: Node, base: nat)
    ensures WalkNode(n, base).nodes == Numbered(PostOrder(n), base)
    decreases n, 1
  {
    var fp := ForestPostOrder(n.children);
    WalkForestIsNumbered(n.children, base);
    NumberedConcat(fp, [n], base);
  }

  lemma {:induction false} WalkForestIsNumbered(cs: seq<Node>, base: nat)
    ensures WalkForest(cs, base).nodes == Numbered(ForestPostOrder(cs), base)
    decreases cs, 0
  {
    if |cs| > 0 {
      var p, q := PostOrder(cs[0]), ForestPostOrder(cs[1..]);
      WalkIsNumbered(cs[0], base);
      WalkForestIsNumbered(cs[1..], base + |p|);
      WalkForestNodes(cs, base);
      NumberedConcat(p, q, base);
      JoinEqual(WalkForest(cs, base).nodes, WalkNode(cs[0], base).nodes, WalkForest(cs[1..], base + |p|).nodes,
        Numbered(p, base), Numbered(q, base + |p|), Numbered(ForestPostOrder(cs), base));
    }
  }

  /** Two joined sequences equal, part by part, to two others. */
  lemma JoinEqual<T>(a: seq<T>, b1: seq<T>, b2: seq<T>, c1: seq<T>, c2: seq<T>, d: seq<T>)
    requires a == b1 + b2 && b1 == c1 && b2 == c2 && d == c1 + c2
    ensures a == d
  {
  }

  /** A forest's numbered nodes are its first tree's followed by the rest's. */
  lemma WalkForestNodes(cs: seq<Node>, base: nat)
    requires cs != []
    ensures ForestPostOrder(cs) == PostOrder(cs[0]) + ForestPostOrder(cs[1..])
    ensures WalkForest(cs, base).nodes
      == WalkNode(cs[0], base).nodes + WalkForest(cs[1..], base + |PostOrder(cs[0])|).nodes
  {
  }

  /** The leaf ids the walk collects are those of the post-order sequence. */
  lemma {:induction false} WalkLeavesArePostOrder(n: Node, base: nat)
    ensures WalkNode(n, base).leaves == LeafIds(PostOrder(n), base)
    decreases n, 1
  {
    var fp := ForestPostOrder(n.children);
    var id := base + ForestSize(n.children);
    WalkForestLeavesArePostOrder(n.children, base);
    LeafIdsConcat(fp, [n], base);
    LeafIdsOne(n, id);
    if n.children != [] {
      assert WalkForest(n.children, base).leaves + [] == WalkForest(n.children, base).leaves;
    }
  }

  lemma {:induction false} WalkForestLeavesArePostOrder(cs: seq<Node>, base: nat)
    ensures WalkForest(cs, base).leaves == LeafIds(ForestPostOrder(cs), base)
    decreases cs, 0
  {
    if cs != [] {
      WalkLeavesArePostOrder(cs[0], base);
      WalkForestLeavesArePostOrder(cs[1..], base + Size(cs[0]));
      LeafIdsConcat(PostOrder(cs[0]), ForestPostOrder(cs[1..]), base);
    }
  }

  /** The leaf ids are exactly the ids of the leaves, in increasing order. */
  lemma {:induction false} LeafIdsExact(p: seq<Node>, base: nat)
    ensures forall k | 0 <= k < |p| :: base + k in LeafIds(p, base) <==> p[k].children == []
    ensures forall a | 0 <= a < |LeafIds(p, base)| :: base <= LeafIds(p, base)[a] < base + |p|
    ensures forall a, b | 0 <= a < b < |LeafIds(p, base)| :: LeafIds(p, base)[a] < LeafIds(p, base)[b]
    decreases |p|
  {
    if p != [] {
      var rest := LeafIds(p[1..], base + 1);
      LeafIdsExact(p[1..], base + 1);
      forall k | 1 <= k < |p|
        ensures base + k in LeafIds(p, base) <==> p[k].children == []
      {
        assert p[k] == p[1..][k - 1];
        assert base + k in rest <==> p[k].children == [];
      }
    }
  }

  /** `e` joins, within the run `p` numbered from `base`, a node to one of
      its children, and the child comes first. */
  predicate EdgeOk(p: seq<Node>, base: nat, e: Edge) {
    && base <= e.child < e.parent < base + |p|
    && p[e.child - base] in p[e.parent - base].children
  }

  lemma EdgeOkLeft(p: seq<Node>, q: seq<Node>, base: nat, e: Edge)
    requires EdgeOk(p, base, e)
    ensures EdgeOk(p + q, base, e)
  {
    assert (p + q)[e.child - base] == p[e.child - base];
    assert (p + q)[e.parent - base] == p[e.parent - base];
  }

  lemma EdgeOkRight(p: seq<Node>, q: seq<Node>, base: nat, e: Edge)
    requires EdgeOk(q, base + |p|, e)
    ensures EdgeOk(p + q, base, e)
  {
    assert (p + q)[e.child - base] == q[e.child - (base + |p|)];
    assert (p + q)[e.parent - base] == q[e.parent - (base + |p|)];
  }

  /** Each of a node's own edges leads from its id to the id of one of its
      children. */
  lemma {:induction false} ChildEdgesHit(id: nat, cs: seq<Node>, base: nat)
    ensures forall e | e in ChildEdges(id, cs, base) ::
      && e.parent == id
      && base <= e.child < base + ForestSize(cs)
      && ForestPostOrder(cs)[e.child - base] in cs
    decreases cs
  {
    if cs != [] {
      var b1 := base + Size(cs[0]);
      var p := PostOrder(cs[0]);
      var q := ForestPostOrder(cs[1..]);
      assert ForestPostOrder(cs) == p + q;
      ChildEdgesHit(id, cs[1..], b1);
      forall e | e in ChildEdges(id, cs, base)
        ensures && e.parent == id
                && base <= e.child < base + ForestSize(cs)
                && ForestPostOrder(cs)[e.child - base] in cs
      {
        if e == Edge(id, b1 - 1) {
          assert ForestPostOrder(cs)[e.child - base] == p[|p| - 1];
        } else {
          assert e in ChildEdges(id, cs[1..], b1);
          assert ForestPostOrder(cs)[e.child - base] == q[e.child - b1];
          assert q[e.child - b1] in cs[1..];
        }
      }
    }
  }

  /** src/tanos/tree.py:92-93: every edge of the walk joins a node to one of
      its children, and the child's id is the smaller, so it was assigned
      before the edge was emitted. */
  lemma {:induction false} WalkEdgesOk(n: Node, base: nat)
    ensures forall e | e in WalkNode(n, base).edges :: EdgeOk(PostOrder(n), base, e)
    decreases n, 1
  {
    var fp := ForestPostOrder(n.children);
    var id := base + ForestSize(n.children);
    var f := WalkForest(n.children, base);
    WalkForestEdgesOk(n.children, base);
    ChildEdgesHit(id, n.children, base);
    forall e | e in WalkNode(n, base).edges
      ensures EdgeOk(PostOrder(n), base, e)
    {
      if e in f.edges {
        EdgeOkLeft(fp, [n], base, e);
      } else {
        assert e in ChildEdges(id, n.children, base);
        assert PostOrder(n)[e.parent - base] == n;
        assert PostOrder(n)[e.child - base] == fp[e.child - base];
      }
    }
  }

  lemma {:induction false} WalkForestEdgesOk(cs: seq<Node>, base: nat)
    ensures forall e | e in WalkForest(cs, base).edges :: EdgeOk(ForestPostOrder(cs), base, e)
    decreases cs, 0
  {
    if cs != [] {
      var p := PostOrder(cs[0]);
      var q := ForestPostOrder(cs[1..]);
      var a := WalkNode(cs[0], base);
      var b := WalkForest(cs[1..], base + Size(cs[0]));
      WalkEdgesOk(cs[0], base);
      WalkForestEdgesOk(cs[1..], base + Size(cs[0]));
      forall e | e in WalkForest(cs, base).edges
        ensures EdgeOk(ForestPostOrder(cs), base, e)
      {
        if e in a.edges {
          EdgeOkLeft(p, q, base, e);
        } else {
          assert e in b.edges;
          EdgeOkRight(p, q, base, e);
        }
      }
    }
  }

  // Edges by position

  /** The child ids of the edges leaving `id`, in the order they are listed. */
  function Out(es: seq<Edge>, id: nat): seq<nat>
    decreases |es|
  {
    if |es| == 0 then [] else (if es[0].parent == id then [es[0].child] else []) + Out(es[1..], id)
  }

  lemma {:induction false} OutConcat(a: seq<Edge>, b: seq<Edge>, id: nat)
    ensures Out(a + b, id) == Out(a, id) + Out(b, id)
    decreases |a|
  {
    if a == [] {
      assert a + b == b;
    } else {
      assert (a + b)[0] == a[0] && (a + b)[1..] == a[1..] + b;
      OutConcat(a[1..], b, id);
    }
  }

  lemma {:induction false} OutNone(es: seq<Edge>, id: nat)
    requires forall e | e in es :: e.parent != id
    ensures Out(es, id) == []
    decreases |es|
  {
    if es != [] {
      assert es[0] in es;
      assert forall e | e in es[1..] :: e in es;
      OutNone(es[1..], id);
    }
  }

  /** The ids `o` name, in order, one node per child of the node at index
      `k` of the run `p` numbered from `base`: the j-th id is the node whose
      position extends the position of node `k` with `j`. */
  predicate ChildIdsAt(o: seq<nat>, base: nat, ps: seq<Path>, p: seq<Node>, k: nat)
    requires |ps| == |p| && k < |p|
  {
    && |o| == |p[k].children|
    && forall j | 0 <= j < |o| :: base <= o[j] < base + |ps| && ps[o[j] - base] == ps[k] + [j]
  }

  /** The edges `es` of a run numbered from `base` are exactly the
      parent-child links given by the positions `ps`: every edge leaves a
      node of the run, and the node with id `base + k` has one edge per
      child, in child order. */
  predicate EdgesExact(es: seq<Edge>, base: nat, ps: seq<Path>, p: seq<Node>)
    requires |ps| == |p|
  {
    && (forall e | e in es :: base <= e.parent < base + |ps|)
    && (forall id | base <= id < base + |p| :: EdgesOfNode(es, base, ps, p, id))
  }

  /** The edges leaving the node with id `id` lead to its children. */
  predicate EdgesOfNode(es: seq<Edge>, base: nat, ps: seq<Path>, p: seq<Node>, id: nat)
    requires |ps| == |p| && base <= id < base + |p|
  {
    ChildIdsAt(Out(es, id), base, ps, p, id - base)
  }

  /** A node's own edges go, in child order, to the end of each child's
      block of ids, which holds the child itself. */
  lemma {:induction false} ChildEdgesOut(id: nat, cs: seq<Node>, i: nat, base: nat)
    ensures |Out(ChildEdges(id, cs, base), id)| == |cs|
    ensures forall j | 0 <= j < |cs| ::
      var c := Out(ChildEdges(id, cs, base), id)[j];
      base <= c < base + ForestSize(cs) && ForestPaths(cs, i)[c - base] == [i + j]
    decreases cs
  {
    if cs != [] {
      var b1 := base + Size(cs[0]);
      var ps := PostOrderPaths(cs[0]);
      var rest := ForestPaths(cs[1..], i + 1);
      assert ForestPaths(cs, i) == Lift(i, ps) + rest;
      ChildEdgesOut(id, cs[1..], i + 1, b1);
      var es := ChildEdges(id, cs, base);
      var o' := Out(ChildEdges(id, cs[1..], b1), id);
      assert es[0] == Edge(id, b1 - 1) && es[1..] == ChildEdges(id, cs[1..], b1);
      var o := Out(es, id);
      assert o == [b1 - 1] + o';
      assert ps[|ps| - 1] == [];
      forall j | 0 <= j < |cs|
        ensures base <= o[j] < base + ForestSize(cs) && ForestPaths(cs, i)[o[j] - base] == [i + j]
      {
        if j == 0 {
          assert ForestPaths(cs, i)[b1 - 1 - base] == [i] + ps[|ps| - 1];
        } else {
          assert o[j] == o'[j - 1];
          assert ForestPaths(cs, i)[o[j] - base] == rest[o[j] - b1];
        }
      }
    }
  }

  /** Every edge of a node's walk leaves one of its nodes. */
  lemma {:induction false} ChildEdgesFrom(id: nat, cs: seq<Node>, base: nat)
    ensures forall e | e in ChildEdges(id, cs, base) :: e.parent == id
    decreases cs
  {
    if cs != [] {
      ChildEdgesFrom(id, cs[1..], base + Size(cs[0]));
    }
  }

  /** The walk's edges stay within the ids of the subtree walked. */
  lemma WalkParents(n: Node, base: nat)
    ensures forall e | e in WalkNode(n, base).edges :: base <= e.parent < base + Size(n)
  {
    WalkEdgesOk(n, base);
  }

  lemma WalkForestParents(cs: seq<Node>, base: nat)
    ensures forall e | e in WalkForest(cs, base).edges :: base <= e.parent < base + ForestSize(cs)
  {
    WalkForestEdgesOk(cs, base);
  }

  /** The node with id `id` gets one edge per child. */
  lemma {:induction false} WalkOutLength(n: Node, base: nat, id: nat)
    requires base <= id < base + Size(n)
    ensures |Out(WalkNode(n, base).edges, id)| == |PostOrder(n)[id - base].children|
    decreases n, 2
  {
    if id == base + ForestSize(n.children) {
      RootOutLength(n, base);
    } else {
      KidsOutLength(n, base, id);
    }
  }

  lemma RootOutLength(n: Node, base: nat)
    ensures |Out(WalkNode(n, base).edges, base + ForestSize(n.children))| == |n.children|
  {
    var cs := n.children;
    var root := base + ForestSize(cs);
    WalkForestParents(cs, base);
    OutNone(WalkForest(cs, base).edges, root);
    if cs != [] {
      OutConcat(WalkForest(cs, base).edges, ChildEdges(root, cs, base), root);
      ChildEdgesOut(root, cs, 0, base);
    }
  }

  lemma {:induction false} KidsOutLength(n: Node, base: nat, id: nat)
    requires base <= id < base + ForestSize(n.children)
    ensures |Out(WalkNode(n, base).edges, id)| == |PostOrder(n)[id - base].children|
    decreases n, 1
  {
    KidsEdges(n, base, id);
    KidsNode(n, id - base);
    WalkForestOutLength(n.children, base, id);
  }

  lemma {:induction false} WalkForestOutLength(cs: seq<Node>, base: nat, id: nat)
    requires base <= id < base + ForestSize(cs)
    ensures |Out(WalkForest(cs, base).edges, id)| == |ForestPostOrder(cs)[id - base].children|
    decreases cs, 0
  {
    if id < base + Size(cs[0]) {
      FirstEdges(cs, base, id);
      FirstNode(cs, id - base);
      WalkOutLength(cs[0], base, id);
    } else {
      RestEdges(cs, base, id);
      RestNode(cs, id - base);
      WalkForestOutLength(cs[1..], base + Size(cs[0]), id);
    }
  }

  /** Below the node's own id, its walk's edges are its children's. */
  lemma KidsEdges(n: Node, base: nat, id: nat)
    requires base <= id < base + ForestSize(n.children)
    ensures Out(WalkNode(n, base).edges, id) == Out(WalkForest(n.children, base).edges, id)
  {
    var cs := n.children;
    var root := base + ForestSize(cs);
    if cs != [] {
      ChildEdgesFrom(root, cs, base);
      OutNone(ChildEdges(root, cs, base), id);
      OutConcat(WalkForest(cs, base).edges, ChildEdges(root, cs, base), id);
    }
  }

  /** Below the node's own place, its post-order is its children's. */
  lemma KidsNode(n: Node, k: nat)
    requires k < ForestSize(n.children)
    ensures PostOrder(n)[k] == ForestPostOrder(n.children)[k]
  {
  }

  lemma KidsPath(n: Node, k: nat)
    requires k < ForestSize(n.children)
    ensures PostOrderPaths(n)[k] == ForestPaths(n.children, 0)[k]
  {
  }

  /** Within the first tree's ids, a forest's walk's edges are that tree's. */
  lemma FirstEdges(cs: seq<Node>, base: nat, id: nat)
    requires cs != [] && base <= id < base + Size(cs[0])
    ensures Out(WalkForest(cs, base).edges, id) == Out(WalkNode(cs[0], base).edges, id)
  {
    var b1 := base + Size(cs[0]);
    var b := WalkForest(cs[1..], b1).edges;
    WalkForestParents(cs[1..], b1);
    OutNone(b, id);
    OutConcat(WalkNode(cs[0], base).edges, b, id);
  }

  lemma FirstNode(cs: seq<Node>, k: nat)
    requires cs != [] && k < Size(cs[0])
    ensures ForestPostOrder(cs)[k] == PostOrder(cs[0])[k]
  {
  }

  lemma FirstPath(cs: seq<Node>, i: nat, k: nat)
    requires cs != [] && k < Size(cs[0])
    ensures ForestPaths(cs, i)[k] == [i] + PostOrderPaths(cs[0])[k]
  {
  }

  /** Past the first tree's ids, a forest's walk's edges are the rest's. */
  lemma RestEdges(cs: seq<Node>, base: nat, id: nat)
    requires cs != [] && base + Size(cs[0]) <= id < base + ForestSize(cs)
    ensures Out(WalkForest(cs, base).edges, id) == Out(WalkForest(cs[1..], base + Size(cs[0])).edges, id)
  {
    var a := WalkNode(cs[0], base).edges;
    WalkParents(cs[0], base);
    OutNone(a, id);
    OutConcat(a, WalkForest(cs[1..], base + Size(cs[0])).edges, id);
  }

  lemma RestEdgeAt(cs: seq<Node>, base: nat, id: nat, j: nat)
    requires cs != [] && base + Size(cs[0]) <= id < base + ForestSize(cs)
    requires j < |Out(WalkForest(cs[1..], base + Size(cs[0])).edges, id)|
    ensures j < |Out(WalkForest(cs, base).edges, id)|
    ensures Out(WalkForest(cs, base).edges, id)[j] == Out(WalkForest(cs[1..], base + Size(cs[0])).edges, id)[j]
  {
    RestEdges(cs, base, id);
  }

  lemma RestNode(cs: seq<Node>, k: nat)
    requires cs != [] && Size(cs[0]) <= k < ForestSize(cs)
    ensures ForestPostOrder(cs)[k] == ForestPostOrder(cs[1..])[k - Size(cs[0])]
  {
  }

  lemma RestPath(cs: seq<Node>, i: nat, k: nat)
    requires cs != [] && Size(cs[0]) <= k < ForestSize(cs)
    ensures ForestPaths(cs, i)[k] == ForestPaths(cs[1..], i + 1)[k - Size(cs[0])]
  {
  }

  /** The `j`-th edge leaving node `id` goes to the id of its `j`-th
      child, found by position. */
  lemma {:induction false} WalkOutAt(n: Node, base: nat, id: nat, j: nat)
    requires base <= id < base + Size(n)
    requires j < |PostOrder(n)[id - base].children|
    ensures j < |Out(WalkNode(n, base).edges, id)|
    ensures base <= Out(WalkNode(n, base).edges, id)[j] < base + Size(n)
    ensures PostOrderPaths(n)[Out(WalkNode(n, base).edges, id)[j] - base] == PostOrderPaths(n)[id - base] + [j]
    decreases n, 2
  {
    if id == base + ForestSize(n.children) {
      RootOutAt(n, base, id, j);
    } else {
      KidsOutAt(n, base, id, j);
    }
  }

  lemma RootOutAt(n: Node, base: nat, root: nat, j: nat)
    requires j < |n.children| && root == base + ForestSize(n.children)
    ensures j < |Out(WalkNode(n, base).edges, root)|
    ensures base <= Out(WalkNode(n, base).edges, root)[j] < base + Size(n)
    ensures PostOrderPaths(n)[Out(WalkNode(n, base).edges, root)[j] - base] == PostOrderPaths(n)[root - base] + [j]
  {
    RootOut(n, base);
    RootOwnAt(n, base, root, j);
  }

  lemma RootOwnAt(n: Node, base: nat, root: nat, j: nat)
    requires j < |n.children| && root == base + ForestSize(n.children)
    ensures j < |Out(ChildEdges(root, n.children, base), root)|
    ensures base <= Out(ChildEdges(root, n.children, base), root)[j] < base + Size(n)
    ensures PostOrderPaths(n)[Out(ChildEdges(root, n.children, base), root)[j] - base] == PostOrderPaths(n)[root - base] + [j]
  {
    ChildEdgesOut(root, n.children, 0, base);
    RootChild(n, base, root, j, Out(ChildEdges(root, n.children, base), root)[j]);
  }

  /** The child of the root at `j` has the path `[j]`. */
  lemma RootChild(n: Node, base: nat, root: nat, j: nat, c: nat)
    requires root == base + ForestSize(n.children)
    requires base <= c < root && ForestPaths(n.children, 0)[c - base] == [0 + j]
    ensures PostOrderPaths(n)[c - base] == PostOrderPaths(n)[root - base] + [j]
  {
    KidsPath(n, c - base);
    assert PostOrderPaths(n)[root - base] == [];
    assert [0 + j] == [] + [j];
  }

  /** The node's own edges are the only ones leaving it. */
  lemma RootOut(n: Node, base: nat)
    requires n.children != []
    ensures Out(WalkNode(n, base).edges, base + ForestSize(n.children))
      == Out(ChildEdges(base + ForestSize(n.children), n.children, base), base + ForestSize(n.children))
  {
    var cs := n.children;
    var root := base + ForestSize(cs);
    WalkForestParents(cs, base);
    OutNone(WalkForest(cs, base).edges, root);
    OutConcat(WalkForest(cs, base).edges, ChildEdges(root, cs, base), root);
  }

  lemma {:induction false} KidsOutAt(n: Node, base: nat, id: nat, j: nat)
    requires base <= id < base + ForestSize(n.children)
    requires j < |PostOrder(n)[id - base].children|
    ensures j < |Out(WalkNode(n, base).edges, id)|
    ensures base <= Out(WalkNode(n, base).edges, id)[j] < base + Size(n)
    ensures PostOrderPaths(n)[Out(WalkNode(n, base).edges, id)[j] - base] == PostOrderPaths(n)[id - base] + [j]
    decreases n, 1
  {
    KidsEdges(n, base, id);
    KidsForestAt(n, base, id, j);
  }

  lemma {:induction false} KidsForestAt(n: Node, base: nat, id: nat, j: nat)
    requires base <= id < base + ForestSize(n.children)
    requires j < |PostOrder(n)[id - base].children|
    ensures j < |Out(WalkForest(n.children, base).edges, id)|
    ensures base <= Out(WalkForest(n.children, base).edges, id)[j] < base + Size(n)
    ensures PostOrderPaths(n)[Out(WalkForest(n.children, base).edges, id)[j] - base] == PostOrderPaths(n)[id - base] + [j]
    decreases n, 0
  {
    KidsNode(n, id - base);
    WalkForestOutAt(n.children, 0, base, id, j);
    KidsPath(n, id - base);
    KidsPath(n, Out(WalkForest(n.children, base).edges, id)[j] - base);
  }

  lemma {:induction false} WalkForestOutAt(cs: seq<Node>, i: nat, base: nat, id: nat, j: nat)
    requires base <= id < base + ForestSize(cs)
    requires j < |ForestPostOrder(cs)[id - base].children|
    ensures j < |Out(WalkForest(cs, base).edges, id)|
    ensures base <= Out(WalkForest(cs, base).edges, id)[j] < base + ForestSize(cs)
    ensures ForestPaths(cs, i)[Out(WalkForest(cs, base).edges, id)[j] - base] == ForestPaths(cs, i)[id - base] + [j]
    decreases cs, 1
  {
    if id < base + Size(cs[0]) {
      FirstOutAt(cs, i, base, id, j);
    } else {
      RestOutAt(cs, i, base, id, j);
    }
  }

  lemma {:induction false} FirstOutAt(cs: seq<Node>, i: nat, base: nat, id: nat, j: nat)
    requires cs != [] && base <= id < base + Size(cs[0])
    requires j < |ForestPostOrder(cs)[id - base].children|
    ensures j < |Out(WalkForest(cs, base).edges, id)|
    ensures base <= Out(WalkForest(cs, base).edges, id)[j] < base + ForestSize(cs)
    ensures ForestPaths(cs, i)[Out(WalkForest(cs, base).edges, id)[j] - base] == ForestPaths(cs, i)[id - base] + [j]
    decreases cs, 0
  {
    FirstEdges(cs, base, id);
    FirstNode(cs, id - base);
    WalkOutAt(cs[0], base, id, j);
    var x := Out(WalkNode(cs[0], base).edges, id)[j];
    FirstPath(cs, i, id - base);
    FirstPath(cs, i, x - base);
    LiftStep(i, PostOrderPaths(cs[0])[id - base], j);
  }

  lemma {:induction false} RestOutAt(cs: seq<Node>, i: nat, base: nat, id: nat, j: nat)
    requires cs != [] && base + Size(cs[0]) <= id < base + ForestSize(cs)
    requires j < |ForestPostOrder(cs)[id - base].children|
    ensures j < |Out(WalkForest(cs, base).edges, id)|
    ensures base <= Out(WalkForest(cs, base).edges, id)[j] < base + ForestSize(cs)
    ensures ForestPaths(cs, i)[Out(WalkForest(cs, base).edges, id)[j] - base] == ForestPaths(cs, i)[id - base] + [j]
    decreases cs, 0
  {
    RestNode(cs, id - base);
    WalkForestOutAt(cs[1..], i + 1, base + Size(cs[0]), id, j);
    RestEdgeAt(cs, base, id, j);
    RestPathAt(cs, i, base, id, j, Out(WalkForest(cs[1..], base + Size(cs[0])).edges, id)[j]);
  }

  /** The step of `RestOutAt` for the position: a node found at `x` in the
      rest of the forest keeps its path, with the rest's index in front. */
  lemma RestPathAt(cs: seq<Node>, i: nat, base: nat, id: nat, j: nat, x: nat)
    requires cs != [] && base + Size(cs[0]) <= id < base + ForestSize(cs)
    requires base + Size(cs[0]) <= x < base + Size(cs[0]) + ForestSize(cs[1..])
    requires ForestPaths(cs[1..], i + 1)[x - (base + Size(cs[0]))]
      == ForestPaths(cs[1..], i + 1)[id - (base + Size(cs[0]))] + [j]
    ensures base <= x < base + ForestSize(cs)
    ensures ForestPaths(cs, i)[x - base] == ForestPaths(cs, i)[id - base] + [j]
  {
    RestPath(cs, i, id - base);
    RestPath(cs, i, x - base);
  }

  lemma LiftStep(i: nat, p: Path, j: nat)
    ensures [i] + (p + [j]) == ([i] + p) + [j]
  {
  }

  /** src/tanos/tree.py:92-93 by position: the walk of a subtree emits, for
      the node with id `base + k`, one edge per child in child order, each
      to the id of the node at that child's position. */
  lemma WalkEdgesExact(n: Node, base: nat)
    ensures EdgesExact(WalkNode(n, base).edges, base, PostOrderPaths(n), PostOrder(n))
  {
    WalkParents(n, base);
    forall id | base <= id < base + Size(n)
      ensures EdgesOfNode(WalkNode(n, base).edges, base, PostOrderPaths(n), PostOrder(n), id)
    {
      WalkOutLength(n, base, id);
      forall j | 0 <= j < |PostOrder(n)[id - base].children|
        ensures var o := Out(WalkNode(n, base).edges, id);
          base <= o[j] < base + Size(n) && PostOrderPaths(n)[o[j] - base] == PostOrderPaths(n)[id - base] + [j]
      {
        WalkOutAt(n, base, id, j);
      }
    }
  }

  /** src/tanos/tree.py:75-100 as a whole: the layout's edges are exactly
      the tree's parent-child links by position. */
  lemma MermaidLayout(t: Tree, replaceInternal: bool, show: MetaValue -> string)
    ensures var p := PostOrder(t.root);
      var w := WalkNode(t.root, 0);
      && GetMermaid(t, replaceInternal, show)
         == "graph LR\n" + NodeLines(Numbered(p, 0), replaceInternal, show) + EdgesText(w.edges)
            + "\tclassDef nodes fill:#eee,stroke:#fff,stroke-width:0px,color:black;\n"
            + "\tclassDef leaf-nodes fill:#fff;\n"
            + "\tclass " + JoinNats(Ids(|p|), ",") + " nodes;\n"
            + "\tclass " + JoinNats(LeafIds(p, 0), ",") + " leaf-nodes;\n"
      && |w.edges| == |p| - 1
      && (forall e | e in w.edges :: EdgeOk(p, 0, e))
      && EdgesExact(w.edges, 0, PostOrderPaths(t.root), p)
  {
    WalkIsNumbered(t.root, 0);
    WalkLeavesArePostOrder(t.root, 0);
    WalkEdgesOk(t.root, 0);
    WalkEdgesExact(t.root, 0);
  }
}
