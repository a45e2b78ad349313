# newick-visualizer layout core, in Dafny

This project models the layout script of newick-visualizer
(`newick_visualizer/templates/scripts/layout.js`). The script prepares a
phylogenetic tree for drawing in four steps:

- It builds the group index `nodeOrderMap` from the injected `groupData`.
  The index maps a leaf name to its group's position in the group order, its
  position inside the group and the group's name.
- It parses Newick text with `parseNewick`, a split on delimiters followed
  by one pass with a cursor node and a stack of open ancestors.
- It reorders every child list with `reorganizeTree`. Each subtree gets a
  family by a majority vote of its leaves (`getPrimaryFamily` over
  `getLeafNodes`), and siblings are sorted stably by the position of that
  family in the group order.
- It adapts the d3 tree layout. The separation callback keeps leaves of the
  same group closer. A pass over the laid-out nodes moves every node to a
  distance from its parent given by its confidence. `transformCoordinates`
  turns a layout position into a screen position for the configured
  direction.

The modules follow those steps:

- `JsText`: `Option`, whitespace trimming and the `!isNaN` test on strings.
- `Tokenizer`: the split with its capturing delimiter group.
- `NewickParser`: the parse, as a step function over a value state (a
  zipper: the stack frames hold open nodes without their last child, and
  the cursor is that last child), with a loop method proved equal to it.
- `NewickRoundTrip`: what the parse makes of the text of a described tree.
- `GroupIndex`: the configuration defaults and the index build.
- `StableSort`: the stable descending sort, as a function and as an in-place
  array method.
- `Reorganizer` and `ReorganizerExamples`: leaves, the family vote and the
  reorganisation.
- `LayoutAdapter`: separation, branch lengths, the repositioning pass over
  coordinate arrays, and the coordinate transform.
- `SupportValues`: which confidences reach the layout, with the corrected
  parse described under Findings.

Where the program's documented behaviour and its code differ, the model
follows the code:

- Input that ends before its last `)` is not an error. The node returned is
  the cursor, which is the last subtree read (`NewickRoundTrip.ExampleUnclosed`).
- The empty text after a `)` passes `!isNaN`. It becomes the clade's
  confidence, and its name is `""` (see Findings).
- Siblings are sorted into descending group position. `(Eagle,(Cat,Dog))`
  with order `[mammals, birds]` keeps Eagle first
  (`ReorganizerExamples.BirdStaysFirst`).
- A leaf that is the whole input (`A;`) gets no name
  (`NewickRoundTrip.ParseNewickLeaf`).
- In left mode the pass subtracts the length and the transform negates the
  depth again, so children are drawn to the right of their parents, as in
  right mode. In up and down modes the pass moves the breadth coordinate x,
  not the depth y (`LayoutAdapter.ScreenOffset`). Both behaviours are kept as
  written.

## Model

| member | source | states |
|---|---|---|
| GroupIndex.TreeDirection | newick_visualizer/templates/scripts/layout.js:4 | the direction is the configured one when it is set and non-empty, and 'right' otherwise |
| GroupIndex.GroupOrder | newick_visualizer/templates/scripts/layout.js:5 | the configured group order is used whenever it is present (even empty); otherwise every group name, in key order |
| GroupIndex.Keys | newick_visualizer/templates/scripts/layout.js:5 | the keys of the groups, position by position |
| GroupIndex.OrderOf | newick_visualizer/templates/scripts/layout.js:13-14 | the `order` of the first group with that name is found, whether present or not; a found list belongs to a group of that name; a name that no group has finds nothing |
| GroupIndex.Index | newick_visualizer/templates/scripts/layout.js:12-22 | `nodeOrderMap` after visiting the groups of an order; no contract of its own; BuildIndex is proved equal to it and IndexEntries describes its content |
| GroupIndex.NodeOrderMap | newick_visualizer/templates/scripts/layout.js:5-22 | the index for a configuration, built from GroupOrder; no contract of its own; described by IndexEntries |
| GroupIndex.BuildIndex | newick_visualizer/templates/scripts/layout.js:12-22 | the two nested loops build exactly the index function `Index` |
| GroupIndex.AddNamesEntries | newick_visualizer/templates/scripts/layout.js:16-22 | adding one group's list gives each of its names the entry of its last position in the list and leaves other keys unchanged |
| GroupIndex.IndexEntries | newick_visualizer/templates/scripts/layout.js:12-22 | a name has an entry iff some visited group lists it; its entry is its last listing (group position, position in list, group name), and no listing comes after it; groups without `order` add nothing but use up a position |
| JsText.TrimStartRemovesSpaces | newick_visualizer/templates/scripts/layout.js:108 | every character trimming removes at the front is white space |
| JsText.TrimEndRemovesSpaces | newick_visualizer/templates/scripts/layout.js:89 | every character trimming removes at the end is white space |
| Tokenizer.Tokenize | newick_visualizer/templates/scripts/layout.js:89 | `s.split(/\s*(;|\(|\)|,|:)\s*/)`; no contract of its own, the body is the model; described by TokenizeAlternates, TokenizeKeepsDelims and TokenizeConcat |
| JsText.EmptyIsNumeric | newick_visualizer/templates/scripts/layout.js:108 | `!isNaN("")` holds |
| JsText.NumeralIsNumeric | newick_visualizer/templates/scripts/layout.js:108 | `!isNaN("0.95")` holds |
| JsText.LabelIsNotNumeric | newick_visualizer/templates/scripts/layout.js:108 | `!isNaN("foo")` does not hold |
| JsText.IsNumeric | newick_visualizer/templates/scripts/layout.js:108 | `!isNaN(token)` on a string; no contract of its own, the body (the string-to-number grammar after trimming) is the model; pinned down by EmptyIsNumeric, NumeralIsNumeric and LabelIsNotNumeric |
| Tokenizer.TokenizeAlternates | newick_visualizer/templates/scripts/layout.js:89 | the split alternates text and one-character delimiter tokens, starting and ending with text |
| Tokenizer.TokenizeKeepsDelims | newick_visualizer/templates/scripts/layout.js:89 | the delimiter tokens of the split are the delimiter characters of the input, in order |
| Tokenizer.TokenizeConcat | newick_visualizer/templates/scripts/layout.js:89 | splitting the text of a clean alternating token list gives back that list |
| NewickParser.StepOpen | newick_visualizer/templates/scripts/layout.js:95-100 | `(` pushes the cursor, which now has exactly one child, the fresh cursor: the children it had are gone; an undefined cursor throws |
| NewickParser.StepComma | newick_visualizer/templates/scripts/layout.js:101-105 | `,` appends a fresh cursor to the children of the node on top of the stack, after the old cursor, and keeps the rest of the stack; with an empty stack or an undefined cursor it throws |
| NewickParser.StepClose | newick_visualizer/templates/scripts/layout.js:106-111 | `)` pops the top node and makes it the cursor with all its children: those it already held, then the old cursor as its last child; it keeps its name and takes the next token as its confidence when `!isNaN` accepts it (otherwise it keeps its own); on an empty stack the cursor becomes undefined, and an accepted next token throws |
| NewickParser.Step | newick_visualizer/templates/scripts/layout.js:93-121 | one iteration of the loop; no contract of its own, the body is the model; described by StepOpen, StepComma, StepClose, StepHeight and StepToUndefined |
| NewickParser.Exec | newick_visualizer/templates/scripts/layout.js:92-123 | the iterations over a range of tokens; no contract of its own; the loop method ParseTokens is proved equal to it |
| NewickParser.ParseNewick | newick_visualizer/templates/scripts/layout.js:86-125 | parseNewick on a string; no contract of its own; described by ParseNewickNeverUndefined, UnmatchedCloseThrows, TopLevelCommaThrows and the round-trip lemmas |
| NewickParser.ParseTokens | newick_visualizer/templates/scripts/layout.js:86-125 | the loop over the tokens returns what the step-function parse returns, including the TypeError |
| NewickParser.StepHeight | newick_visualizer/templates/scripts/layout.js:95-107 | `(` pushes one ancestor, `)` pops one, every other token leaves the stack height alone |
| NewickParser.StackTracksDepth | newick_visualizer/templates/scripts/layout.js:95-107 | while the cursor is a node, the stack height is the bracket depth of the tokens read, and no prefix closed more brackets than it opened |
| NewickParser.UndefinedStays | newick_visualizer/templates/scripts/layout.js:106-119 | once the cursor is undefined it stays undefined or the parse throws |
| NewickParser.StepToUndefined | newick_visualizer/templates/scripts/layout.js:106 | only a `)` makes a defined cursor undefined |
| NewickParser.UndefinedIsTransient | newick_visualizer/templates/scripts/layout.js:106-119 | on the split's output an undefined cursor throws at the next token |
| NewickParser.ThrowsUnlessOpen | newick_visualizer/templates/scripts/layout.js:95-124 | on the split's output, once the cursor is not a node the whole parse throws |
| NewickParser.ParseNewickNeverUndefined | newick_visualizer/templates/scripts/layout.js:124 | for any string the function returns a node or throws, never undefined |
| NewickParser.UnmatchedCloseThrows | newick_visualizer/templates/scripts/layout.js:106-110 | a `)` without a matching `(` before it makes the parse throw |
| NewickParser.TopLevelCommaThrows | newick_visualizer/templates/scripts/layout.js:101-103 | a `,` outside every bracket makes the parse throw |
| NewickRoundTrip.ExecLength | newick_visualizer/templates/scripts/layout.js:112-119 | a `:` and the branch length after it change nothing |
| NewickRoundTrip.ExecLeaf | newick_visualizer/templates/scripts/layout.js:114-119 | a label after `(` or `,` names the fresh cursor |
| NewickRoundTrip.ParseEmitted | newick_visualizer/templates/scripts/layout.js:86-125 | for any confidence test, the tokens of a well-formed clade followed by `;` leave the clade's tree as the cursor with an empty stack, and parse to that tree |
| NewickRoundTrip.ParseNewickText | newick_visualizer/templates/scripts/layout.js:86-125 | round trip: the text of a well-formed clade followed by `;` parses back to its tree of named nodes; branch lengths are dropped, and numeric clade labels become confidences |
| NewickRoundTrip.ParseNewickLeaf | newick_visualizer/templates/scripts/layout.js:114-119 | a lone leaf at the top level is never named; the result is the empty initial node |
| NewickRoundTrip.ParseNewickUnclosed | newick_visualizer/templates/scripts/layout.js:124 | input that stops before a clade's `)`, with or without a final `;`, returns the node of the clade's last subtree, without error |
| NewickRoundTrip.ExampleConfidence | newick_visualizer/templates/scripts/layout.js:106-118 | `(A,B)0.95;` gives a root named and with confidence "0.95" and the leaves A and B |
| NewickRoundTrip.ExampleUnclosed | newick_visualizer/templates/scripts/layout.js:124 | `(A,B` returns the leaf B |
| NewickRoundTrip.ExecReopen | newick_visualizer/templates/scripts/layout.js:95-121 | a clade's tokens from its `(` on, met with any cursor, leave the clade's node: the cursor's old children are replaced by the clade's subtrees, and its confidence is kept only when the clade's label is not numeric |
| NewickRoundTrip.ParseReopened | newick_visualizer/templates/scripts/layout.js:92-124 | a clade read right after another clade: only the second clade's subtrees remain, the node is named by the second label, and its confidence is the second label if numeric, else the first label if numeric, else none |
| NewickRoundTrip.ParseNewickReopened | newick_visualizer/templates/scripts/layout.js:86-125 | the same on the text of two clades written one after the other |
| NewickRoundTrip.ExampleReopened | newick_visualizer/templates/scripts/layout.js:86-125 | `(A)(B);` gives a root whose only child is the leaf B, named and with confidence "" |
| StableSort.SortDescSorted | newick_visualizer/templates/scripts/layout.js:62-80 | the sort's result is in descending key order |
| StableSort.SortDescElements | newick_visualizer/templates/scripts/layout.js:62-80 | the sort's result is a permutation of its input |
| StableSort.SortDescStable | newick_visualizer/templates/scripts/layout.js:62-80 | elements with equal keys keep their relative order |
| StableSort.SortDescIsTheStableSort | newick_visualizer/templates/scripts/layout.js:62-80 | any descending, stable rearrangement of the input equals the sort's result, so every stable sort gives it |
| StableSort.SortDescIdempotent | newick_visualizer/templates/scripts/layout.js:62-80 | sorting a sorted list changes nothing |
| StableSort.SortInPlace | newick_visualizer/templates/scripts/layout.js:62-80 | the in-place array sort leaves the array holding the stable descending sort of its old contents |
| Reorganizer.LeavesAreChildlessNodes | newick_visualizer/templates/scripts/layout.js:29-34 | the leaves of a tree are exactly its nodes without `children`, left to right |
| Reorganizer.Leaves | newick_visualizer/templates/scripts/layout.js:29-34 | getLeafNodes; no contract of its own; described by LeavesAreChildlessNodes |
| Reorganizer.PrimaryFamily | newick_visualizer/templates/scripts/layout.js:37-51 | getPrimaryFamily as a function; no contract of its own; GetPrimaryFamily is proved equal to it, and PrimaryFamilyIsDominant, PrimaryFamilyUnanimous and DominantUnique describe it |
| Reorganizer.TallyCounts | newick_visualizer/templates/scripts/layout.js:38-46 | the tally holds exactly the families met, each with its number of occurrences |
| Reorganizer.DistinctOrder | newick_visualizer/templates/scripts/layout.js:38-49 | the tally's keys are the families met, in order of first occurrence |
| Reorganizer.CountFamilies | newick_visualizer/templates/scripts/layout.js:38-46 | the counting loop builds the tally and its key order; unindexed leaves are skipped |
| Reorganizer.GetPrimaryFamily | newick_visualizer/templates/scripts/layout.js:37-51 | the method (tally, then an array sort by count) returns the vote function's result |
| Reorganizer.PrimaryFamilyIsDominant | newick_visualizer/templates/scripts/layout.js:37-51 | a family is returned iff some leaf is indexed and "" does not win; the returned family has the most indexed leaves, and on a tie it is the family met first |
| Reorganizer.PrimaryFamilyUnanimous | newick_visualizer/templates/scripts/layout.js:37-51 | when every indexed leaf is in one non-empty family, that family is returned |
| Reorganizer.DominantUnique | newick_visualizer/templates/scripts/layout.js:37-51 | at most one family wins the vote |
| Reorganizer.IndexIn | newick_visualizer/templates/scripts/layout.js:73-74 | `indexOf` gives -1 for null or an unlisted family, otherwise the first position of the family |
| Reorganizer.Compare | newick_visualizer/templates/scripts/layout.js:62-80 | the comparator is the second subtree's rank minus the first's, including when the families are equal |
| Reorganizer.Reorganize | newick_visualizer/templates/scripts/layout.js:54-83 | reorganizeTree as a function; no contract of its own; ReorganizeTree is proved equal to it, and ReorganizeSorts, ReorganizeKeepsLeaves, ReorganizeIdempotent and NullFamiliesLast describe it |
| Reorganizer.ReorganizeTree | newick_visualizer/templates/scripts/layout.js:54-83 | the recursive method returns the reorganised tree |
| Reorganizer.ReorganizeSorts | newick_visualizer/templates/scripts/layout.js:54-83 | a leaf is returned unchanged; otherwise name and confidence are kept and the children are the reorganised children, permuted into descending rank, with equal ranks in their old order |
| Reorganizer.ReorganizeKeepsLeaves | newick_visualizer/templates/scripts/layout.js:54-83 | reorganising keeps the multiset of leaves |
| Reorganizer.ReorganizeIdempotent | newick_visualizer/templates/scripts/layout.js:54-83 | reorganising twice gives the result of reorganising once |
| Reorganizer.FamiliesListed | newick_visualizer/templates/scripts/layout.js:12-22 | every family the vote can see is in the group order |
| Reorganizer.RankOfFamily | newick_visualizer/templates/scripts/layout.js:68-74 | with the index built from the order, the rank is -1 iff the family is null, and otherwise it is the family's position |
| Reorganizer.NullFamiliesLast | newick_visualizer/templates/scripts/layout.js:62-80 | after reorganising, a subtree with no family is followed only by subtrees with no family |
| ReorganizerExamples.ExampleIndex | newick_visualizer/templates/scripts/layout.js:12-22 | the index of mammals `[Cat, Dog]` and birds `[Eagle]` |
| ReorganizerExamples.MammalsRank | newick_visualizer/templates/scripts/layout.js:37-51 | the clade (Cat,Dog) votes mammals, rank 0 |
| ReorganizerExamples.BirdStaysFirst | newick_visualizer/templates/scripts/layout.js:54-83 | `(Eagle,(Cat,Dog))` is unchanged: birds (position 1) sort before mammals (position 0) |
| ReorganizerExamples.BirdMovesFirst | newick_visualizer/templates/scripts/layout.js:54-83 | `((Cat,Dog),Eagle)` becomes `(Eagle,(Cat,Dog))` |
| LayoutAdapter.BranchLengthConfig | newick_visualizer/templates/scripts/layout.js:149-153 | the configured lengths when given, otherwise min 30, max 200, default 100 |
| LayoutAdapter.ConfidenceScale | newick_visualizer/templates/scripts/layout.js:158-160 | the linear confidence scale; no contract of its own; described by ConfidenceScaleRange |
| LayoutAdapter.ConfidenceScaleRange | newick_visualizer/templates/scripts/layout.js:158-160 | the scale sends 0 to min and 1 to max; when min <= max it is monotone and keeps [0, 1] within [min, max] |
| LayoutAdapter.Separation | newick_visualizer/templates/scripts/layout.js:165-169 | 1 iff both names are present, indexed and in groups at the same position; 2 otherwise |
| LayoutAdapter.SeparationSymmetric | newick_visualizer/templates/scripts/layout.js:165-169 | the separation does not depend on the order of its arguments |
| LayoutAdapter.SeparationOfListings | newick_visualizer/templates/scripts/layout.js:165-169 | with the index built from the order, two indexed names are 1 apart iff their last listings are in groups at the same position |
| LayoutAdapter.Transform | newick_visualizer/templates/scripts/layout.js:128-140 | transformCoordinates; no contract of its own; described by TransformDefault and ScreenOffset |
| LayoutAdapter.TransformDefault | newick_visualizer/templates/scripts/layout.js:136-138 | an unknown direction is drawn as right |
| LayoutAdapter.EdgeLength | newick_visualizer/templates/scripts/layout.js:180-182 | the length of one edge; no contract of its own; Lengths and Reposition state it for every node |
| LayoutAdapter.Lengths | newick_visualizer/templates/scripts/layout.js:180-182 | an edge's length is the scaled confidence when there is one, the default otherwise |
| LayoutAdapter.Reposition | newick_visualizer/templates/scripts/layout.js:177-195 | roots keep their position; every other node is moved to its edge length from its parent along y (right +, left -) or x (down +, up -), keeping the other coordinate; other directions change nothing; in closed form each node lies its path length from its root |
| LayoutAdapter.PlacedIsRepositioned | newick_visualizer/templates/scripts/layout.js:177-195 | placing each node from its parent, parents first, puts each node at its path length from its root |
| LayoutAdapter.ScreenOffset | newick_visualizer/templates/scripts/layout.js:128-140 | on screen a child is its edge length right of its parent in right, left and down modes and left of it in up mode; up and down keep the layout's y; other directions keep the layout's position |
| LayoutAdapter.DefaultEdgeDrawn | newick_visualizer/templates/scripts/layout.js:149-153 | with the default configuration and direction, a child without confidence is drawn 100 to the right of the root |
| SupportValues.ParseSupported | newick_visualizer/templates/scripts/layout.js:106-110 | whatever the numeric test, every confidence stored in the parsed tree passes it |
| SupportValues.StrictAgrees | newick_visualizer/templates/scripts/layout.js:106-110 | the corrected parse equals parseNewick whenever every token after a `)` that `!isNaN` accepts is a number: they differ only where the token after a `)` is empty or blank |
| SupportValues.StrictAgreesApplies | newick_visualizer/templates/scripts/layout.js:106-110 | on `(A,B)0.95;` the premise of StrictAgrees holds, so both parses agree |
| SupportValues.NestedCladeGetsEmptyConfidence | newick_visualizer/templates/scripts/layout.js:106-110 | as written, `((A,B),C);` gives the inner clade the confidence "", which is no number, and its edge is the scale applied to it |
| SupportValues.ParseNewickStrictNumbers | newick_visualizer/templates/scripts/layout.js:106-110 | the corrected parse stores only confidences that are numbers |
| SupportValues.NestedCladeStrict | newick_visualizer/templates/scripts/layout.js:106-110 | corrected, the inner clade of `((A,B),C);` has no confidence, and its edge has the default length |

## Left out

- Object identity and in-place updates in parseNewick are not modelled: nodes are values, and the parser's state is a zipper. The node objects are never shared, so the result is the same tree.
- `reorganizeTree` updates `node.children` in place; the model returns a new tree. The child list itself is sorted in place on an array (`StableSort.SortInPlace`).
- The `if (!node) return node` guard (layout.js:55) is not modelled: a tree value is never null, and the program never passes a null child.
- Floating point: coordinates and lengths are reals. `parseFloat`, NaN and its propagation into coordinates are not modelled. Confidences stay the tokens they were read from.
- The confidence scale is a parameter of the pass. `ConfidenceScale` states d3's linear interpolation on its own.
- The d3 base layout (`d3.tree().size(...)`, layout.js:163-164) is not modelled. Its coordinates are inputs. Its `each` traversal becomes a list of nodes with parents listed first.
- `LayoutAdapter.Separation`: takes the two node names, not the d3 nodes they belong to.
- `Object.keys` ordering: the groups are given as a sequence already in key order. JavaScript's rule that integer-like keys come first is not modelled.
- Malformed configuration is not modelled: the types require `groupData.groups` to be present and every `order` and `groupOrder` to be a list of strings. The program throws a TypeError when `groups` is missing and there is no `groupOrder` (`Object.keys(undefined)`, layout.js:5), when `groups` is missing and `groupOrder` is non-empty (layout.js:13), and when `groupOrder` or a group's `order` is truthy but not an array (`forEach` at layout.js:12 and :16). A falsy non-array `order` (such as `""`) is skipped like a missing one. None of these throws is part of the model.
- `groupNodeMap` (layout.js:25) and `useEvenDistribution` (layout.js:3) are computed but never read, so they are not modelled.
- `console.log` (layout.js:155) and the canvas constants (layout.js:144-146) do nothing the model could state.
- `JsText.IsNumeric` is the string-to-number grammar that `isNaN` applies to a string: after trimming white space, the empty string or a decimal, exponent, hexadecimal, octal or binary literal, or `Infinity` with an optional sign. Like `Number()`, it accepts `+Infinity` and `-Infinity` and rejects numeric separators such as `1_000`. Only string arguments are modelled, since the parser passes only tokens.
- The template manager (`build/lib/newick_visualizer/core/template_manager.py`) only reads files and substitutes text, so it is not part of this model.

## Findings

| source | as written | input that shows it | evidently intended | confidence | as-written member | corrected member |
|---|---|---|---|---|---|---|
| newick_visualizer/templates/scripts/layout.js:106-110 | the token after every `)` is stored as the confidence when `!isNaN(token)` holds, and `!isNaN("")` holds, so an unlabelled clade gets the confidence `parseFloat("")`, NaN; the pass at lines 180-182 then scales NaN into a coordinate | `((A,B),C);`: the inner clade's confidence is "" | only a numeral is a confidence, so an unlabelled clade's edge has the default length | high, not executed | SupportValues.NestedCladeGetsEmptyConfidence | SupportValues.ParseNewickStrictNumbers |
