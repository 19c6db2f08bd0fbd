# r-ary Huffman code builder

A model of the code builder in `HuffmanEncoder/huffman.py`. The builder reads a set of symbols, each with
a weight (a probability). For a radix r >= 2 it builds an r-ary Huffman tree and gives every symbol
a codeword. Child positions 0..9 are written as the digits `0..9`, and a position n >= 10 as the
character with code point n + 87: positions 10..35 are `a..z`, and larger ones go on past `z`
(`{`, `|`, ...). The model covers:

- `HuffmanEncoder._create_nodes`: one leaf per symbol, then a stable sort by weight.
- `HuffmanTree.build_huffman_tree`: it repeatedly pops the lightest nodes and puts them under a new
  parent. For the first merge with r > 2 it uses Huffman's first-group rule: it takes the size s in
  [2, r] for which (N - s) is divisible by r - 1.
- `HuffmanTree.add_children`: it sets the parent pointer and the level of each child.
- `HuffmanTree.traverse_and_encode`: it writes each leaf's root-to-leaf child positions into
  `encoding`.
- `HuffmanTree._large_base_convert`: it writes a position n >= 10 as the character with code
  point n + 87 (`a..z` for 10..35).
- The alphabetical sort of the finished encoding (line 287).

The node objects are modelled as an arena, a sequence of `Node` values named by index. The leaves
come first, at 0..N-1, and each parent is appended when it is made. Parent and child links are
indices. Each node's `code` list is kept in a separate sequence, `codes`, index for index. Both
sequences are fields of the `HuffmanTree` class. Its methods update these fields in place and are
proved against value-level specification functions:

- `Merge` and `Built` for one merge and for the whole build;
- `Encoding` for the code read from a node.

The lemmas then prove what the source promises about those functions. After the build, the last
node made is the root. Every leaf lies under it. It weighs as much as all the input together. Every
inner node has 2..r children. The code has exactly one entry per input symbol and is prefix-free.
Each codeword spells the child positions on the leaf's path, so its length is the leaf's depth.
Every digit is below the radix.

Modules, in dependency order:

- `common.dfy`: `Option`, `Result`, index ranges, prefix-freedom.
- `grouping.dfy`: the group size of each merge.
- `digits.dfy`: code elements and their rendering.
- `nodes.dfy`: nodes, the stable sort by weight, weight sums.
- `trees.dfy`: parent chains, paths, depth, and the `Encoding` of a subtree.
- `construction.dfy`: the build as functions on arenas, with the invariant `Forest` that every
  merge keeps.
- `huffman_tree.dfy`: the `HuffmanTree` class.
- `alphabetical.dfy`: Python's string order and the sorted items of a dict.
- `encoder.dfy`: the `HuffmanEncoder` class.

Weights are `real`. The source only compares and adds them.

Where a plain reading of the algorithm and the code differ, the model follows the code:

- A single-symbol alphabet is often said to get the empty codeword. As written, `huffman_encode`
  stops on it instead (see Findings). The corrected version gives an empty code table, because the
  guard at line 147 skips a leaf that has no parent.
- The code does not reject a radix below 2, an empty symbol set or duplicate symbols. Duplicates
  cannot reach the builder, because the dict from `_read_problem` keeps the last weight given for
  each symbol. So the model takes `radix >= 2` as a precondition and a dict (distinct keys) as
  input. It has no error values for these cases.
- Line 78 assigns the re-sorted list to a misspelled variable and has no effect. The list is sorted
  again only at the top of the next call (line 25). Because the parent was put in front (line 77)
  and Python's sort is stable, a new parent goes before older nodes of the same weight. The model
  does exactly that (`Construction.ParentBeforeTies`).

## Model

| member | source | states |
|---|---|---|
| Encoder.CreateNodes | HuffmanEncoder/huffman.py:246-259 | one leaf per dict item, in dict order, carrying that item's symbol and weight; the returned list holds every leaf exactly once (a permutation of the indices), is sorted by non-decreasing weight with ties in dict order, and is the stable sort of the leaves |
| Encoder.LeavesOfDict | HuffmanEncoder/huffman.py:252-255 | the leaves made from a dict have no parent, no children and no level, and no two carry the same symbol |
| Encoder.HuffmanEncoder.constructor | HuffmanEncoder/huffman.py:219-220 | the encoder holds the leaves `_create_nodes` makes from the dict, and its list of them is their stable sort by weight |
| Nodes.Leaf | HuffmanEncoder/huffman.py:254 | the node `HuffmanNode(symbol, weight)` makes, as a definition (no contract of its own): the symbol and weight given, no parent, no children, no level; `LeavesOfDict` states what the leaves of a dict are |
| Nodes.SortByWeight | HuffmanEncoder/huffman.py:25 | `sorted(..., key=weight)` returns a permutation of its input (same multiset, same length) |
| Nodes.SortSorted | HuffmanEncoder/huffman.py:25 | the sorted list has non-decreasing weights |
| Nodes.SortKeepsTies | HuffmanEncoder/huffman.py:25 | the sort is stable: nodes of equal weight listed in creation order stay in creation order |
| Nodes.SortOfSorted | HuffmanEncoder/huffman.py:25 | sorting a list that is already sorted returns it unchanged |
| Nodes.SortDistinct | HuffmanEncoder/huffman.py:25 | sorting a list without repeats gives a list without repeats |
| Nodes.SumWeights | HuffmanEncoder/huffman.py:62-63 | the total weight of a list of nodes, as a definition (no contract of its own); `SumSort`, `ParentSum`, `MergeSum` and `BuiltSum` state how sorting and merging keep it |
| Nodes.SumSort | HuffmanEncoder/huffman.py:25 | sorting keeps the total weight of the list |
| Grouping.FirstGroup | HuffmanEncoder/huffman.py:40-48 | the closed form of the first group size lies in [2, radix]; `FirstGroupFits` and `FirstGroupUnique` show it is the size the scan finds |
| Grouping.GroupSize | HuffmanEncoder/huffman.py:40-54 | the number of nodes a merge pops, as a definition (no contract of its own): the first group at level 0 when the radix is above 2, otherwise the radix; `GroupFits` states that it lies in 2..radix and never exceeds the list |
| Grouping.FirstGroupSize | HuffmanEncoder/huffman.py:40-48 | the scan from s = radix down to 2 stops at an s in [2, radix] with (N - s) divisible by radix - 1, s <= N when N >= 2, and s is the closed form `FirstGroup` |
| Grouping.FirstGroupFits | HuffmanEncoder/huffman.py:40-48 | the closed form lies in [2, radix], leaves N - s divisible by radix - 1, and is at most N when N >= 2 |
| Grouping.FirstGroupUnique | HuffmanEncoder/huffman.py:40-48 | exactly one size in [2, radix] meets the condition, so the scan order does not matter |
| Grouping.ReducibleMod | HuffmanEncoder/huffman.py:36-54 | a list that merges of radix nodes take down to one node is exactly one of length 1 + k(radix - 1) |
| Grouping.LaterGroupFits | HuffmanEncoder/huffman.py:50-54 | after the first group, a list of two or more nodes holds at least radix nodes and stays reducible after popping radix and putting the parent back |
| Grouping.GroupFits | HuffmanEncoder/huffman.py:40-54 | every merge pops between 2 and radix nodes, never more than the list holds, and the list with the parent put back is reducible |
| Digits.ToItem | HuffmanEncoder/huffman.py:127-129 | the element a child position adds to a code list is the integer itself exactly when the position is at most 9, and otherwise a character that reads back as the position |
| Digits.LargeBaseConvert | HuffmanEncoder/huffman.py:156-160 | for a position of 10 or more the character is 'a' or later and reads back as that position (10 is 'a', 11 is 'b') |
| Digits.DecimalString | HuffmanEncoder/huffman.py:148 | `str` of a position is a non-empty string of decimal digits; a position up to 9 is one digit that reads back as itself |
| Digits.DigitString | HuffmanEncoder/huffman.py:127-129 | every child position contributes exactly one character to the codeword, and it reads back as that position |
| Digits.ItemString | HuffmanEncoder/huffman.py:148 | `str(e)` of one code-list element, as a definition (no contract of its own); `DecimalString` and `DigitString` state that each child position becomes one character that reads back as it |
| Digits.Render | HuffmanEncoder/huffman.py:148 | `''.join(str(e) for e in code)` as a definition (no contract of its own); `RenderAppend` and `RenderItems` state that it distributes over concatenation and spells one character per child position |
| Digits.RenderAppend | HuffmanEncoder/huffman.py:148 | joining a code list distributes over concatenation |
| Digits.RenderItems | HuffmanEncoder/huffman.py:127-148 | the joined code of a path of child positions has one character per position, each reading back as its position |
| HuffmanTrees.HuffmanTree.constructor | HuffmanEncoder/huffman.py:8-16 | a new tree has the given radix and root node, no parents made yet, an empty encoding, the existing node objects, and an empty code list for each of them |
| HuffmanTrees.PopFront | HuffmanEncoder/huffman.py:46-47 | popping the front `count` times yields the first `count` nodes in order and leaves the rest |
| Construction.Adopt | HuffmanEncoder/huffman.py:96-98 | the loop's effect on the node objects keeps their number; which nodes it changes, and how, is stated by `AdoptEffect` |
| Construction.AdoptEffect | HuffmanEncoder/huffman.py:96-98 | adopting sets the parent and the level of exactly the listed children, and leaves every other node as it was |
| HuffmanTrees.HuffmanTree.AddChildren | HuffmanEncoder/huffman.py:86-99 | the loop leaves the arena as `Adopt` says: each child gets the parent and the parent's level minus one |
| HuffmanTrees.MergeState | HuffmanEncoder/huffman.py:35-77 | one call's merge on the tree's fields, as a definition (no contract of its own): the arena as `Merge` leaves it, the parent recorded in `nodes`, made the root and given an empty code list, and the parent put in front of what is left; `MergeStateRest` and `BooksAfterMerge` state its effect on the rest of the state |
| HuffmanTrees.HuffmanTree.MergeGroup | HuffmanEncoder/huffman.py:35-77 | one merge: pop the group, append a parent weighing their total, record it in `nodes`, adopt the group, make it the root, put it in front of the rest, as `MergeState` says |
| HuffmanTrees.BuildState | HuffmanEncoder/huffman.py:18-83 | the whole recursion on the tree's fields, as a definition (no contract of its own): sort, then merge while more than one node is left; `BuildStateArena` and `BuildStateBooks` state what it leaves |
| HuffmanTrees.HuffmanTree.BuildHuffmanTree | HuffmanEncoder/huffman.py:18-83 | the recursion leaves the tree's state as `BuildState` of the old state: sort, then merge while more than one node is left |
| HuffmanTrees.BuildStateArena | HuffmanEncoder/huffman.py:18-83 | the arena the build leaves is the arena of `Built` on the sorted list |
| HuffmanTrees.BuildStateBooks | HuffmanEncoder/huffman.py:65-74 | the build appends every new parent to `nodes` in order, gives each an empty code list, and leaves the last one made as `root_node` (the root is unchanged if nothing was merged) |
| Construction.Merge | HuffmanEncoder/huffman.py:35-77 | one merge adds exactly one node, the parent, and leaves a working list that refers only to existing nodes and is shorter by the group size minus one |
| Construction.Built | HuffmanEncoder/huffman.py:18-83 | the build only appends nodes and its final working list refers only to existing nodes; `BuiltForest`, `BuiltKeeps` and `HuffmanTreeShape` state the rest of its shape |
| Construction.NewParent | HuffmanEncoder/huffman.py:62-64 | the parent node a merge makes, as a definition (no contract of its own): labelled by the level, as heavy as its children together, with those children and level + 1; `MergeParts` and `MergeForest` state its place in the tree |
| Construction.MergeParts | HuffmanEncoder/huffman.py:35-77 | one merge pops the group size `GroupSize` decides, appends the parent of exactly those nodes, changes only the adopted nodes, and re-sorts the list with the parent in front |
| Construction.MergeForest | HuffmanEncoder/huffman.py:35-82 | one merge keeps the forest invariant: leaves first, each parent labelled by its merge, weighing its children's total, with its children sorted and as many as that merge pops, levels as `add_children` sets them, and the working list holding each parentless node once, sorted |
| Construction.ParentBeforeTies | HuffmanEncoder/huffman.py:77 | after a merge the new parent comes before every node of equal weight in the next working list (the parent is inserted at the front and the sort is stable) |
| Construction.RequeueTies | HuffmanEncoder/huffman.py:77 | a node put in front of a sorted list and then stably sorted precedes every node of its weight |
| Construction.ParentSum | HuffmanEncoder/huffman.py:63 | a parent weighing its group's total keeps the total weight of the working list |
| Construction.MergeSum | HuffmanEncoder/huffman.py:63 | a merge keeps the total weight of the working list |
| Construction.BuiltSum | HuffmanEncoder/huffman.py:63-82 | the whole build keeps the total weight of the working list |
| Construction.BuiltKeeps | HuffmanEncoder/huffman.py:63-82 | the build never changes a node's label, weight or children once made, and only appends nodes |
| Construction.BuiltForest | HuffmanEncoder/huffman.py:27-82 | the build keeps the forest invariant and stops with one node left (none for an empty list) |
| Construction.FinishedTree | HuffmanEncoder/huffman.py:74 | when one node is left, it is the last node made, has no parent, every node lies under it, the leaves under it are exactly the input leaves, and inner nodes have 2..radix children |
| Construction.HuffmanTreeShape | HuffmanEncoder/huffman.py:63-82 | the built tree: the root is the last node made and has no parent, every node lies under it, the leaves under it are exactly the input leaves with their symbols and weights, every inner node has 2..radix children, and the root weighs the total input weight |
| Construction.HuffmanCodeKeys | HuffmanEncoder/huffman.py:122-149 | the code read from the root has one entry per input symbol and no other, and is prefix-free |
| Construction.HuffmanCodeWords | HuffmanEncoder/huffman.py:122-149 | each input symbol's codeword spells the child positions on its path, its length is the leaf's depth (at least 1), and every digit is below the radix |
| Construction.HuffmanCode | HuffmanEncoder/huffman.py:122-149 | for the built tree: keys exactly the input symbols, prefix-free, each codeword the rendered path, of length the depth, with digits below the radix |
| Trees.Encoding | HuffmanEncoder/huffman.py:117-154 | the entries `traverse_and_encode` writes from a node, as a definition (no contract of its own); `EncodingKeys`, `EncodingPrefixFree`, `EncodingPath` and `EncodingExtends` state its keys and codewords |
| Trees.EncodingOfChildren | HuffmanEncoder/huffman.py:125-143 | the entries written while the loop visits the first j children, as a definition (no contract of its own); the same lemmas cover it through their `Children...` helpers |
| Trees.EncodingKeys | HuffmanEncoder/huffman.py:122-149 | the entries written from a node are exactly the symbols of the leaves under it that have a parent |
| Trees.EncodingPrefixFree | HuffmanEncoder/huffman.py:122-149 | no codeword written from a node is a prefix of another |
| Trees.EncodingPath | HuffmanEncoder/huffman.py:122-149 | the codeword of a leaf under a node is the inherited code followed by the child positions on the path to the leaf |
| Trees.EncodingExtends | HuffmanEncoder/huffman.py:132-142 | every codeword written from a node extends the inherited code with digits below the radix |
| Trees.PathDepth | HuffmanEncoder/huffman.py:122-143 | the path from the root to a node has as many steps as the node's depth |
| Trees.PathDigits | HuffmanEncoder/huffman.py:125-142 | every position on a path is below the radix when no node has more than radix children |
| HuffmanTrees.HuffmanTree.InheritCode | HuffmanEncoder/huffman.py:138-139 | the child's code list gets the inherited elements appended in order, and no other list changes |
| HuffmanTrees.HuffmanTree.VisitChild | HuffmanEncoder/huffman.py:128-143 | one round of the loop: the child's code list becomes the inherited code plus the element for its position, its subtree is traversed, and the code lists and `encoding` are then those after the first i + 1 children |
| HuffmanTrees.HuffmanTree.EncodeChildren | HuffmanEncoder/huffman.py:125-143 | the loop over the children writes `EncodingOfChildren` and gives every node below the node its inherited code plus its path |
| HuffmanTrees.HuffmanTree.TraverseAndEncode | HuffmanEncoder/huffman.py:117-154 | the traversal adds `Encoding` of the subtree to `encoding`, gives every node strictly below the node its inherited code plus the elements of its path, and changes no other code list |
| Alphabetical.Below | HuffmanEncoder/huffman.py:287 | Python's `<` on strings, as a definition (no contract of its own): the first differing character decides, and a proper prefix comes first; `BelowIrreflexive`, `BelowTransitive` and `BelowTotal` show it is a strict total order |
| Alphabetical.BelowIrreflexive | HuffmanEncoder/huffman.py:287 | no string comes before itself in Python's order |
| Alphabetical.BelowTransitive | HuffmanEncoder/huffman.py:287 | Python's string order is transitive |
| Alphabetical.BelowTotal | HuffmanEncoder/huffman.py:287 | of two different strings one comes before the other |
| Alphabetical.SortedItems | HuffmanEncoder/huffman.py:287 | the sorted items list every entry of the encoding once, with strictly increasing symbols |
| Encoder.CodeTable | HuffmanEncoder/huffman.py:278-284 | the encoding read from the root of the tree built over the sorted leaves, as a definition (no contract of its own); `CodeTableCorrect` states its properties |
| Encoder.CodeTableCorrect | HuffmanEncoder/huffman.py:122-149 | the code table of N >= 2 symbols has one entry per input symbol and no other, is prefix-free, and every codeword has at least one digit, each below the radix |
| Encoder.SortedLeaves | HuffmanEncoder/huffman.py:25 | sorting the leaves `_create_nodes` already sorted changes nothing |
| Encoder.BuildFromLeaves | HuffmanEncoder/huffman.py:278-281 | building a new tree over the sorted leaves leaves the built tree in its arena and keeps the bookkeeping of the merges |
| Encoder.BuildOutcome | HuffmanEncoder/huffman.py:27 | `root_node` is set exactly when there are two or more leaves; with fewer, the tree is as it was made |
| Encoder.BuiltRoot | HuffmanEncoder/huffman.py:74 | where `root_node` was set it is the last node made, has no parent, the tree can be traversed from it, no code list is written yet, and the code read from it is the code table |
| Encoder.InitialState | HuffmanEncoder/huffman.py:278 | the fields of `HuffmanTree(radix, None)` over the leaves (lines 8-16), as a definition (no contract of its own): the leaves, no parents, no root, an empty code list for each; `BuildFromLeaves` and `BuildOutcome` start from it |
| Encoder.HuffmanEncoder.BuildTree | HuffmanEncoder/huffman.py:277-281 | a new tree with an empty encoding, whose arena is the built tree and whose bookkeeping is that of the merges |
| Encoder.HuffmanEncoder.HuffmanEncode | HuffmanEncoder/huffman.py:268-287 | with two or more symbols the result is the code table sorted by symbol; with fewer, the traversal of the missing root fails |
| Encoder.OneSymbolNoRoot | HuffmanEncoder/huffman.py:278-284 | building over a single leaf merges nothing, so `root_node` is still `None` when it is traversed |
| Encoder.CorrectedRoot | HuffmanEncoder/huffman.py:284 | traversing from `root_node`, or from the sole node when none was set, starts at a parentless node with no code written; the code read is empty for one symbol and the code table for more |
| Encoder.HuffmanEncoder.HuffmanEncodeCorrected | HuffmanEncoder/huffman.py:268-287 | with the root fixed, one symbol gives an empty sorted encoding and two or more give the code table sorted by symbol |

## Left out

- Command-line parsing, `_read_problem` (file reading and float parsing), and the printing and file
  output of `huffman_encode` are not modelled. The dict `_read_problem` returns is an input, given
  as its items in insertion order.
- All `verbose` output, `traverse_and_callback` and the empty `huffman_base2_callback` are left
  out. They only print.
- The parent's label `"%s_%1.2f" % (level, weight)` is modelled as `Merged(level)`. The weight
  formatting is floating-point text and plays no part in the code.
- Weights are real numbers. Floating-point rounding of the sums is not modelled. A rounded sum can
  break a tie differently and so change the codewords. For {A: 0.1, B: 0.2, C: 0.3, D: 0.4} at
  radix 2 the sum 0.1 + 0.2 is above 0.3 in floating point, so the source puts C before the new
  parent and gives A=110, B=111, C=10, D=0. The model ties them, puts the parent first and gives
  A=100, B=101, C=11, D=0.
- `HuffmanNode.is_orphaned` and `is_childless` are left out; they cannot be called as written.
  `levelnode` and `code_length` are left out because nothing uses them.
- `InfoCalculator/infocalc.py` and `InfoCalculator/infocalc.c` are not part of this model. They
  only read files and compute floating-point statistics of a finished code.
- A radix below 2 is excluded by precondition. With two or more symbols, the source never shrinks
  its working list at such a radix, and Python stops with `RecursionError`. With one symbol or
  none, no merge happens.
- Radices above `MaxRadix` (55209) are excluded. With a larger radix, a child position of 55209 or
  more maps to code point 0xD800 or above, which Dafny's `char` cannot hold.
- HuffmanTrees.HuffmanTree.TraverseAndEncode: when a leaf is reached, `node.code` is replaced by the joined
  string (line 148). The model writes that string into `encoding` but leaves the list in `codes`.
  Within one traversal nothing reads a leaf's code again.
- Encoder.HuffmanEncoder.HuffmanEncode: the tree works on copies of the encoder's leaves. In the
  source, `huffman_encode` hands the encoder's own leaf objects to the tree (line 281). The build
  overwrites their `parent` and `level` (lines 97-98), and the traversal replaces each coded leaf's
  `code` list by a string (line 148). The model leaves the encoder's `heap` unchanged, so its
  contract holds for every call. In the source, a second `huffman_encode()` on the same encoder
  with two or more symbols fails: `append` on a `str` at line 133 or 139 raises `AttributeError`.
- Encoder.HuffmanEncoder.HuffmanEncodeCorrected: requires at least one symbol. With none there is
  no node to traverse from, so the fix does not apply; `HuffmanEncode` covers that case as written.
- Leaves made with the default `children = []` all share one empty list object. Nothing appends to
  it, so the model gives each leaf its own empty child sequence.
- The recursion of `build_huffman_tree` and `traverse_and_encode` is modelled as recursive methods.
  The recursion limit of Python is not modelled.

## Findings

| source | as written | input that shows it | evidently intended | confidence | as-written member | corrected member |
|---|---|---|---|---|---|---|
| HuffmanEncoder/huffman.py:284 | with fewer than two symbols `build_huffman_tree` merges nothing, so `root_node` stays `None` (line 278); `traverse_and_encode(None)` then reads `None.children` at line 122 and raises `AttributeError` | a symbol file with the single line `a,1.0` | traverse from the one node there is; the guard at line 147 then skips it and the code table is empty | high (not executed) | Encoder.OneSymbolNoRoot | Encoder.HuffmanEncoder.HuffmanEncodeCorrected |
