# TANOS core in Dafny

A model of the core of TANOS, a tool that scores how resilient each clade of a
phylogenetic tree is to removing taxa. The model covers:

- **Newick parsing** (`NewickNode`). This is the recursive-descent parser `Node.initializeNode` and its helpers in src/node.py. It is modelled as pure functions that thread the parse position and return a `Result` whose error names each `MalformedNewickTree` condition.
- **Tree construction** (`NewickTree`). Comment stripping (`__removeNewickComments__`) and the top-level acceptance check (`__initializeNodes__`) of src/tree.py. src/tanos/tree.py holds an identical copy of both methods.
- **A reference Newick renderer and the round trip** (`NewickRender`). Rendering a tree and parsing it back gives the tree again when its labels are plain and every child but the last has a label or a branch length (`Renderable`). The parser's handling of unbalanced parentheses is also shown here, and so is the clade that loses its boundary when it has neither.
- **The parser with the evidently intended nesting** (`NewickNested`). The node parser of src/node.py, except that only the child list opened by a `(` consumes its `)`. It reads back every `PlainNode` tree (plain labels, and no metadata but a well-formed branch length) and agrees with the parser of src/node.py wherever that one reads its input back correctly.
- **Whole-tree operations of src/tanos/tree.py** (`TreeOps`):
  - the post-order traversal and the in-place loops built on it (`scoreResiliency`, `replaceBranchLenWithOtherValue`, `replaceInternalLabelsWithOtherValue`);
  - the Newick and JSON wrappers;
  - the Mermaid diagram.
- **The replicate map of src/taxaResiliency/calcScore.py** (`Replicates`):
  - reading the tab-separated file of file names;
  - the three consistency checks on it;
  - the replicate-count histogram printed when counts differ;
  - the per-taxon sort of replicate paths.

Trees are immutable datatypes: `Node(name, meta, children)`, with the branch
length stored under `meta["branch_length"]` as the source stores it. Real
branch lengths are kept as their literal text. The node-level methods of
src/tanos/node.py are function parameters: scoring, the node renderers and
`str()` of a metadata value. src/tanos/node.py is not part of this model.

Where the code as written cannot run, the model follows what the inline
comments say each step does:
- src/node.py:126 uses an undefined `i`;
- src/node.py:131 misspells `branch_length_str`.

Each such point is listed in the header of `newick_node.dfy`. Where the code
runs but evidently misbehaves, both readings are modelled (see Findings).

## Model

| member | source | states |
|---|---|---|
| NewickNode.SkipWhitespace | src/node.py:93-96 | The whitespace skipper never moves backwards and stops on a non-whitespace character or at the end of the text. |
| NewickNode.SkipWhitespaceSkips | src/node.py:94-95 | Every character the skipper passes over is whitespace, so it stops at the first non-whitespace character. |
| NewickNode.QuotedLabel | src/node.py:98-114 | A quoted label runs from the opening quote through the next identical quote, keeps both quotes, and parsing resumes after the closing one. Fewer than two characters left is exactly the "less than 2 characters" error. |
| NewickNode.QuotedLabelCloses | src/node.py:104-110 | The closing quote is the first identical quote after the opening one. The label is unclosed exactly when no identical quote follows. |
| NewickNode.QuotedLabelAsWritten | src/node.py:98-110 | As written, a successful quoted label leaves the parse position ON the closing quote. |
| NewickNode.AsWrittenQuotedLabelFailsNode | src/node.py:106 | As written, every quoted label that does close makes its node fail: the closing quote is neither `:` nor a node terminator. |
| NewickNode.UnquotedLabel | src/node.py:116-121 | An unquoted label is non-empty, is the text between its start and its end, and ends at whitespace, `)`, `,`, `:`, `;` or the end of the text. |
| NewickNode.UnquotedLabelStops | src/node.py:119-120 | No terminator occurs inside an unquoted label after its first character, so the label is the maximal such run; `(`, `[` and quotes may occur in it. |
| NewickNode.LabelStep | src/node.py:59-67 | A label is optional: at `)`, `,`, `:` or `;` the label is empty and nothing is consumed. |
| NewickNode.NumberLiteral | src/node.py:136-140 | A branch length with a `.` is a real and one without is an int. An int literal yields the value of its sign and digits, and a real literal is well formed. Every failure is the error naming the literal, and the empty literal fails. |
| NewickNode.NonNumericRejected | src/node.py:136-140 | A literal with no digit, or with a character other than a digit, a sign, `.`, `e` or `E`, is the error naming the literal. |
| NewickNode.BranchLength | src/node.py:123-150 | `branch_length` is set exactly when the node's text continues with `:`. It is always an int or a real. `:` at the end of the text is the "found nothing" error, and a literal running to the end of the text is the "reached end of tree" error carrying the literal. |
| NewickNode.NodeEnd | src/node.py:78-91 | A node ends successfully exactly on `)`, `,` or `;`. `)` is consumed and the others are left for the caller. At the end of the text this is the "expecting a right paren, comma, or semi-colon" error. |
| NewickNode.NodeTail | src/node.py:71-91 | A node's tail ends where a node may end. Reaching the end of the text before the branch length is an error. |
| NewickNode.ParseNode | src/node.py:47-91 | A successful parse returns a position at or after its start that is on a `,` or `;` or just past a `)`. The node's metadata holds at most `branch_length`. Text that is only whitespace from the start on is the "before the label" error. |
| NewickNode.LabelledNode | src/node.py:58-91 | The node built keeps the children already parsed and ends where a node may end. |
| NewickNode.ParseChildren | src/node.py:51-56 | Children are parsed only when the next character is `(` or `,`. The parse stops on the first character that is neither. No children means nothing is consumed. |
| NewickTree.StripComments | src/tree.py:57-94 | Stripping never lengthens the text. Its only errors are an unclosed comment and an unclosed quote. |
| NewickTree.StripIsSubsequence | src/tree.py:57-94 | Stripping only deletes characters: the output is a subsequence of the input. |
| NewickTree.StripCommentSpan | src/tree.py:61-72 | A `[` deletes everything up to and including the first following `]`. Comments do not nest. |
| NewickTree.StripQuotedSpan | src/tree.py:74-90 | A quoted span is copied verbatim with its quotes and any brackets inside it, and stripping carries on after it. |
| NewickTree.StripOtherChar | src/tree.py:91-93 | Any other character is copied, in order. |
| NewickTree.StripAfterClean | src/tree.py:60-94 | Text that strips without error, followed by anything, strips as the first part's result followed by the rest stripped: the scan carries no state past a completed comment or quote. |
| NewickTree.UnclosedCommentFails | src/tree.py:69-70 | After any text that strips without error, a `[` with no later `]` is the unclosed-comment error. |
| NewickTree.UnclosedQuoteFails | src/tree.py:87-88 | After any text that strips without error, a quote with no later identical quote is the error naming the quote. |
| NewickTree.StripIdempotent | src/tree.py:57-94 | Stripping a successful result again changes nothing. |
| NewickTree.StripWithoutBrackets | src/tree.py:57-94 | Text with no `[` whose quotes all close is returned unchanged. |
| NewickTree.StripPlainText | src/tree.py:91-93 | Text with no `[` and no quote is returned unchanged. |
| NewickTree.RStrip | src/tree.py:43 | `rstrip()` removes exactly the trailing whitespace: it returns a prefix whose removed suffix is all whitespace and which does not end in whitespace. |
| NewickTree.FinalSemicolon | src/tree.py:46-55 | After `rstrip()`, the check passes exactly when the root stopped on a `;` that is the last character. A different character there is an error naming it, and stopping at the end is the missing-semicolon error. |
| NewickTree.ParseTree | src/tree.py:42-55 | Construction succeeds exactly when stripping succeeds and the root parse of the right-stripped text stops on its final `;`. A stripping error is passed through. The tree keeps the given name. The copy at src/tanos/tree.py:103-116 is line for line the same. |
| NewickRender.LiteralRoundTrip | src/node.py:136-138 | The parser reads a rendered int or real branch length back as the same value. |
| NewickRender.LabelParses | src/node.py:116-121 | A plain label followed by `:` or a node terminator is read back exactly. |
| NewickRender.BranchLengthParses | src/node.py:123-150 | `:` and a rendered branch length are read back as the same `branch_length`. |
| NewickRender.ParseRendered | src/node.py:47-91 | A rendered node followed by `,`, `)` or `;` parses back to the same node, stopping on the `,` or `;` or just past the `)`. |
| NewickRender.ParseRenderedChildren | src/node.py:52-56 | Rendered children after a `(` or `,` parse back in order, one child per `(` or `,`. |
| NewickRender.RenderedTreeText | src/tree.py:43 | A rendered tree has no comment to strip, and right-stripping removes only the final newline. |
| NewickRender.TreeRoundTrip | src/tree.py:42-55 | Rendering a `Renderable` tree and constructing a tree from the text under the same name gives the same tree. A tree is `Renderable` when its labels are plain, its real literals are well formed, and its children other than the last each have a label or branch length. |
| NewickRender.MissingCloseAccepted | src/node.py:79-82 | A `)` is never matched against a `(`: `(A,B;` is accepted as a root with children A and B. |
| NewickRender.ExtraCloseAccepted | src/node.py:79-82 | `A);` is accepted as the single leaf A. |
| NewickRender.SiblingAbsorbed | src/node.py:51-82 | The `)` after B ends B and not the clade of A and B, so `((A,B),C);` is read as a root whose one child has the three children A, B and C. |
| NewickNested.ParseNode | src/node.py:47-91 | A node read from its start stops on the `,`, `)` or `;` after it, leaving that character to its parent, and its metadata holds at most `branch_length`. Text that is only whitespace from the start on is the "before the label" error. |
| NewickNested.ChildList | src/node.py:51-56 | A child list after a `(` that reads holds at least one node and ends after its start. A list whose children run into anything but `,` or `)` is the missing `)` error (`NewickNested.MissingCloseRejected`). |
| NewickNested.ParseTree | src/tree.py:42-55 | Construction over the corrected node parser succeeds exactly when stripping succeeds and the root stops on the final `;` of the right-stripped text. A stripping error is passed through, and the tree keeps the given name. |
| NewickNested.PlainRoundTrip | src/tree.py:42-55 | Rendering any `PlainNode` tree and constructing it again with the corrected parser gives the same tree, so every child list closes at its own `)`. Unlike `NewickRender.TreeRoundTrip`, no node needs a label or branch length. |
| NewickNested.ParsersAgree | src/node.py:47-91 | On the rendering of every `Renderable` tree, the corrected parser and the parser as written construct the same tree. |
| NewickNested.CladeKept | src/node.py:51-82 | The corrected parser reads `((A,B),C);` as the clade of A and B beside the leaf C. |
| NewickNested.MissingCloseRejected | src/node.py:79-82 | The corrected parser rejects `(A,B;` with the missing `)` error. |
| NewickNested.ExtraCloseRejected | src/node.py:79-82 | The corrected parser rejects `A);` at the `)`, where the tree should have ended with `;`. |
| TreeOps.PostOrder | src/tanos/tree.py:43-44 | The traversal yields one node per node of the subtree and ends with the subtree's root. |
| TreeOps.PostOrderPathsFind | src/tanos/tree.py:43-44 | The k-th position visited holds the k-th node of the post-order sequence. |
| TreeOps.PostOrderPathsDistinct | src/tanos/tree.py:43-44 | No position is visited twice. |
| TreeOps.ApplyAllPostOrder | src/tanos/tree.py:47-48 | Mutating each visited node in turn equals the bottom-up rewrite: every node is handed to the operation once, after all its children were updated. |
| TreeOps.ForEachPostOrder | src/tanos/tree.py:52-53 | The in-place loop over the traversal keeps the tree's name and produces the bottom-up rewrite of the root. |
| TreeOps.ScoreResiliency | src/tanos/tree.py:46-49 | Every subtree below the root is scored once, bottom-up. The root keeps its label and other metadata, and its final score is the forced 0. |
| TreeOps.RewriteWithMeta | src/tanos/tree.py:51-57 | Both meta-key rewrites (branch lengths, internal labels) apply their node operation to every node exactly once, in post-order, and keep the tree's name. |
| TreeOps.MapKeepsSize | src/tanos/tree.py:51-57 | The post-order rewrites keep the number of nodes. |
| TreeOps.GetNewick | src/tanos/tree.py:59-63 | The tree's Newick text, plain or with commented metadata, is the root's rendering followed by `;` and a newline. |
| TreeOps.GetNewickParses | src/tanos/tree.py:59-60 | With the reference renderer, the Newick text of a `Renderable` tree constructs the same tree. |
| TreeOps.UnwrapWrapped | src/tanos/tree.py:65-70 | A JSON wrapper whose name holds no `"` can be split back into the name and the root's text. |
| TreeOps.JsonRoundTrip | src/tanos/tree.py:65-70 | Both JSON forms give back the tree's name and the root's JSON when the name holds no `"`. |
| TreeOps.JsonNameNotEscaped | src/tanos/tree.py:65-66 | The name is not escaped: a tree named `a"b` does not read back under its own name. |
| TreeOps.MermaidLabel | src/tanos/tree.py:84-90 | A node shows its label, or a space when the label is empty. With `replace_internal`, an internal node that has a `taxa-resiliency` value shows that value instead. |
| TreeOps.NumberedAt | src/tanos/tree.py:81-94 | In a run numbered from `base`, the k-th node gets id `base + k`. |
| TreeOps.WalkIsNumbered | src/tanos/tree.py:82-94 | The loop gives consecutive ids 0, 1, … to the nodes in post-order. |
| TreeOps.WalkLeavesArePostOrder | src/tanos/tree.py:85-87 | The leaf ids collected are those of the leaves of the post-order sequence. |
| TreeOps.LeafIdsExact | src/tanos/tree.py:85-87 | An id is listed as a leaf exactly when its node has no children. The leaf ids are in range and strictly increasing. |
| TreeOps.WalkEdgesOk | src/tanos/tree.py:92-93 | Every edge joins a node to a node equal to one of its children, and the child's id is smaller, so the child's id exists before the edge is written. Which child it is, by position, is `TreeOps.WalkEdgesExact`. |
| TreeOps.WalkOutLength | src/tanos/tree.py:92-93 | The node with a given id has exactly one edge per child. |
| TreeOps.WalkOutAt | src/tanos/tree.py:92-93 | The j-th edge leaving a node goes to the id of the node at the position of its j-th child. |
| TreeOps.WalkEdgesExact | src/tanos/tree.py:82-94 | The edges are exactly the parent-child links by position: every edge leaves a node of the subtree, and each node's edges go, in child order, one to each of its children. |
| TreeOps.MermaidLayout | src/tanos/tree.py:75-100 | The diagram is `graph LR`, then one node line per node numbered 0..n-1 in post-order, then the n-1 edges, then class lines listing ids 0..n-1 and then the leaf ids. The node with id k has one edge per child, in child order, each to that child's id. |
| Replicates.Taxon | src/taxaResiliency/calcScore.py:239-240 | The taxon is the prefix of the line up to the first tab, or the whole line when it has none. |
| Replicates.PathField | src/taxaResiliency/calcScore.py:239-241 | The path is the text after the taxon's tab up to the next tab, or to the end of the line when there is none. Later fields are ignored. |
| Replicates.Add | src/taxaResiliency/calcScore.py:242-244 | Adding a path adds its taxon to the keys and no other. |
| Replicates.ReadFofnFails | src/taxaResiliency/calcScore.py:237-241 | Reading fails exactly when some line has no tab, and the error names the first such line. |
| Replicates.ReadFofnGroups | src/taxaResiliency/calcScore.py:237-244 | A successful read has exactly the taxa named in the file as keys. Each taxon maps to its paths in file order. |
| Replicates.PathsOfAbsent | src/taxaResiliency/calcScore.py:242-244 | A taxon the file never names has no paths. |
| Replicates.CountIsMultiplicity | src/taxaResiliency/calcScore.py:263-267 | The tally of a count is its multiplicity among the replicate counts. |
| Replicates.MaxOf | src/taxaResiliency/calcScore.py:270 | `max()` is one of the counts and at least every count. |
| Replicates.BinsFrequencies | src/taxaResiliency/calcScore.py:277-279 | Each histogram line is for a count that occurs, with that count's frequency. |
| Replicates.BinsAscending | src/taxaResiliency/calcScore.py:278 | The lines are in strictly ascending order of count, so there is one line per distinct count. |
| Replicates.BinsComplete | src/taxaResiliency/calcScore.py:278 | Every count that occurs has its line. |
| Replicates.HistogramTallies | src/taxaResiliency/calcScore.py:263-267 | The frequencies sum to the number of replicate counts given. |
| Replicates.CountFieldAsWritten | src/taxaResiliency/calcScore.py:270-274 | As written, the count field is a space and the digits, right-aligned to the width of the largest count. It is therefore one wider than that when the count has that many digits. |
| Replicates.CountField | src/taxaResiliency/calcScore.py:270-274 | The intended count field is the digits right-aligned to the width of the largest count. |
| Replicates.HistogramAligned | src/taxaResiliency/calcScore.py:270-274 | With the intended field, every count field of the histogram is exactly as wide as the largest count. |
| Replicates.AsWrittenMisaligned | src/taxaResiliency/calcScore.py:274 | As written, the counts 5 and 10 get fields of different widths. |
| Replicates.HistogramOrderFree | src/taxaResiliency/calcScore.py:299-302 | The histogram depends only on how often each count occurs, not on the unspecified order in which the taxa set is visited. |
| Replicates.Dedup | src/taxaResiliency/calcScore.py:293 | The set of taxa holds each taxon of the main tree once. |
| Replicates.Validate | src/taxaResiliency/calcScore.py:285-303 | A main-tree taxon missing from the map is exactly the first error. Otherwise a map taxon missing from the main tree is exactly the second. No taxa on either side is exactly the `reps[0]` failure. Unequal counts carry the histogram as printed. |
| Replicates.SameTaxa | src/taxaResiliency/calcScore.py:286-296 | The two membership checks pass exactly when the map's taxa are the main tree's taxa. |
| Replicates.EqualCounts | src/taxaResiliency/calcScore.py:299-301 | Comparing every count with the first is the same as all taxa having equal counts. |
| Replicates.ValidateAccepts | src/taxaResiliency/calcScore.py:285-303 | With at least one main-tree taxon, validation passes exactly when the map's taxa are the main tree's taxa and all have the same number of replicates. |
| Replicates.SortByKeySorted | src/taxaResiliency/calcScore.py:318-320 | `list.sort(key=…)` orders a list by non-decreasing key. |
| Replicates.SortByKeyPermutes | src/taxaResiliency/calcScore.py:318-320 | The sort keeps exactly the same elements. |
| Replicates.SortByKeyStable | src/taxaResiliency/calcScore.py:318-320 | The sort is stable: elements with equal keys keep their order. |
| Replicates.SortAllSpec | src/taxaResiliency/calcScore.py:318-320 | Every taxon's list is sorted by key, stably, as a permutation of the original. |
| Replicates.LastDigitKey | src/taxaResiliency/calcScore.py:320 | As written, the key is the value of the last digit of the stem, and there is no key exactly when the stem has no digit. |
| Replicates.AsWrittenKeyMisorders | src/taxaResiliency/calcScore.py:320 | As written, `tree-10` gets key 0 and `tree-9` key 9, so replicate 10 sorts before replicate 9. |
| Replicates.NumberKeyOfReplicate | src/taxaResiliency/calcScore.py:320 | With the intended key, the stem `tree-N` has key N for every N. |
| Replicates.SortReplicates | src/taxaResiliency/calcScore.py:318-320 | Sorting by the number in each stem fails exactly when some stem has no digits. Otherwise it keeps the taxa and leaves each taxon's paths sorted by number and permuted. |
| Replicates.SortedReplicateNumbers | src/taxaResiliency/calcScore.py:318-320 | Paths named `tree-N` that are sorted by the intended key are in increasing N. |

## Left out

- File and directory input:
  - reading the Newick file and the file of file names is modelled from their in-memory lines;
  - the directory scan (src/taxaResiliency/calcScore.py:246-257) and path resolution and existence checks (src/taxaResiliency/calcScore.py:305-316) touch the file system;
  - `createTreeFromNewickFile`, `buildJackknifedTreesFromFiles`, argument handling and output writing are I/O.
- `Path(x).stem` in the sort key is a parameter: it is a path-library call. Stems are assumed not to contain line breaks, which `.*` would not cross.
- Python's `int()` accepts underscores, surrounding whitespace and non-ASCII digits. `float()` also accepts `inf`, `nan` and exponent-only forms. The model takes an optional sign and ASCII digits for ints and a decimal literal with a `.` for reals, and keeps reals as their text. Floating-point values are not modelled.
- The node-level methods of src/tanos/node.py are function parameters, because src/tanos/node.py is not part of this model:
  - `scoreResiliency` of a node, and the score it computes;
  - `replaceBranchLenWithOtherValue` and `replaceInternalLabelWithOtherValue`;
  - `getNewick`, `getNewickWithCommentedMetadata`, `getJson` and `getPrettyJson` of a node;
  - `str()` of a score.
- The containment and leaf-label delegates of src/tanos/tree.py only forward to the root's methods in src/tanos/node.py, so they have no logic of their own to model: `getLeafLabels`, `getEachSubTreeLeafLabelSets`, `getEachSubTreeLeafLabelSetStrs`, `containsSubtreeBasedOnSetOfLeafLabels`, `containsSubtreeBasedOnPreFetchedSetOfLeafLabels`, `isEqualBasedOnSetOfLeafLabels` and `getAscii`.
- src/tanos/tree.py builds its nodes with src/tanos/node.py's parser, which is not part of this model. Its parse entry is modelled with the parser of src/node.py, whose tree-level code it duplicates line for line.
- `id()` in `getMermaid` is Python object identity. Ids are post-order positions, which is what the lookup at src/tanos/tree.py:93 relies on.
- TreeOps.ScoreResiliency: the forced root score is written as the integer 0. The value the node-level method stores when `meaningful` is false is not visible.
- `__str__` and `__repr__` are for debugging only.
- The tree-level `getNewick`, `getJson` and `getPrettyJson` of src/tree.py are not modelled. The node's `getNewick` and `getJson` are stubs (src/node.py:157-161), and src/node.py has no `getPrettyJson` at all.
- NewickRender.TreeRoundTrip: it is stated for trees in which every child but the last has a label or a branch length. A node with neither, followed by `,`, does not end at the `,`: the parser reads the following siblings as that node's children.
- NewickNested.ChildList: its contract states that a list that reads holds a node and ends after its start. That it ends just past its own `)` is proved for rendered text (`NewickNested.PlainRoundTrip`), not stated for every input.
- Replicates.Validate: `UnequalReplicates` carries the printed histogram of the counts visited in the order of the de-duplicated taxa list. Python visits a `frozenset` in an unspecified order, and the histogram does not depend on that order (`HistogramOrderFree`).
- Replicates.LastDigitKey: `\d` in the pattern also matches non-ASCII decimal digits, and `int()` reads them. The model takes only `0`-`9` as digits, so a stem whose last digit is non-ASCII is modelled by its last ASCII digit.

## Findings

| source | as written | input that shows it | evidently intended | confidence | as-written member | corrected member |
|---|---|---|---|---|---|---|
| src/node.py:106 | `index + 1` is computed and discarded, so parsing resumes on the closing quote. | Any quoted label that closes, e.g. `'A';`: the node then fails on the `'`. | Resume after the closing quote, as the comment says. | not executed | NewickNode.QuotedLabelAsWritten, NewickNode.AsWrittenQuotedLabelFailsNode | NewickNode.QuotedLabel |
| src/taxaResiliency/calcScore.py:270-274 | In the format spec `' w'` the space is the sign flag, not a fill character, so each count is printed as a space and its digits in a field of width w. | Replicate counts 5 and 10: the fields are `" 5"` and `" 10"`, and the bars start in different columns. | Right-align the digits in a field of width w. | not executed | Replicates.CountFieldAsWritten, Replicates.AsWrittenMisaligned | Replicates.CountField, Replicates.HistogramAligned |
| src/node.py:51-82 | A `)` ends the node being parsed, not the child list that its `(` opened, so the `,` after a clade with neither label nor branch length adds a child to that clade. | `((A,B),C);` gives a root with one child whose children are A, B and C: the clade of A and B is lost. | Close the child list at its own `)`. | not executed | NewickRender.SiblingAbsorbed | NewickNested.ChildList, NewickNested.CladeKept, NewickNested.PlainRoundTrip |
| src/taxaResiliency/calcScore.py:320 | The greedy `^.*(\d+).*$` leaves the group only the last digit of the stem. | Stems `tree-9` and `tree-10` get keys 9 and 0, so replicate 10 sorts first. | Key on the whole number in the stem. | not executed | Replicates.LastDigitKey, Replicates.AsWrittenKeyMisorders | Replicates.NumberKey, Replicates.NumberKeyOfReplicate |
