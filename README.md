# Quetzal-CoaTL core in Dafny

This project models the C++ core of Quetzal-CoaTL, a template library that simulates gene genealogies backward in time over spatially explicit demographic histories. It proves properties of that model. The model covers these parts of the library:

- **Coalescence containers and algorithms.** These are the `Tree` and `Forest` containers, the Newick generator and the `merge` kernels, plus the binary and simultaneous multiple merger policies. The occupancy spectra, their generator and their probability distribution are modelled too.
- **Coalescence graphs.** These are the k-ary and cardinal (binary) tree graphs, with their traversals, root search and isomorphism test.
- **Demography.** These are the population size and migration flow tables and the demographic `History` with its individual-based expansion. The time-dependent transition kernels are modelled too.
- **Geography.** These are the extent, the resolution, the raster's cell and coordinate arithmetic, the landscape bound policies (mirror, sink, torus) and the 4- and 8-neighbour vicinities.
- **Simulators.** These are the forward–backward spatially explicit simulator's distance-to-parent policy and the discrete-time Wright–Fisher coalescence. The spatial sampling schemes, the JC69 mutation kernel, the diploid individual and the spatial genetic sample are modelled too.
- **Utilities.** These are the expression (`expressive`) combinators, the CSV parser and records, the reference table, the set partitioner and fuzzy partitions.

The library draws with a random number generator. Here every draw is an explicit input: a sequence of shuffle indices, uniform choices, ball placements, sampled distances or waiting times. Each operation is therefore a deterministic function of its inputs and of those draws. The properties proved hold for every choice of the draws.

Each C++ file has a Dafny module named after its concept. An operation that computes a value is a `function` with a contract, with its round trips, invariants and reference definitions proved as lemmas. An operation that updates an object is a `method` on a `class`, whose `ensures` clauses state the new state in terms of the old one. Containers that the source changes in place are `seq` or `map` fields.

## Model

| member | source | states |
|---|---|---|
| NewickGenerator.SurplusConcat | src/include/quetzal/io/newick/generator.hpp:40-53 | the bracket surplus of a concatenation is the sum of the surpluses |
| NewickGenerator.SurplusPrefixStep | src/include/quetzal/io/newick/generator.hpp:43-46 | one more character read moves the counter by its step |
| NewickGenerator.CheckIfBalanced | src/include/quetzal/io/newick/generator.hpp:40-53 | `check_if_balanced` returns true exactly when no prefix closes more brackets than it opens and the whole text closes as many as it opens |
| NewickGenerator.CounterIsSurplus | src/include/quetzal/io/newick/generator.hpp:42-52 | the counter of the loop is the starting value plus the surplus read so far, and it never goes negative exactly when no prefix surplus does |
| NewickGenerator.BalancedByCounter | src/include/quetzal/io/newick/generator.hpp:40-53 | the counter's reading agrees with balance defined by prefix surpluses |
| NewickGenerator.FinalConcat | src/include/quetzal/io/newick/generator.hpp:42-52 | the counter over a concatenation continues from the counter over the first part |
| NewickGenerator.AvoidsKeepsCounter | src/include/quetzal/io/newick/generator.hpp:45-46 | text without either bracket leaves the counter unchanged |
| NewickGenerator.StripStep | src/include/quetzal/io/newick/generator.hpp:151-158 | one character of the depth-2 filter: whether it is kept and the counter it continues with |
| NewickGenerator.RemoveCommentsOfDepth2 | src/include/quetzal/io/newick/generator.hpp:145-161 | `remove_comments_of_depth<2>::edit` computes the filter that drops brackets and text at depth 2 or more |
| NewickGenerator.RemoveCommentsOfDepth0 | src/include/quetzal/io/newick/generator.hpp:58-123 | `remove_comments_of_depth<0>` is the identity |
| NewickGenerator.StripOutputShallow | src/include/quetzal/io/newick/generator.hpp:151-158 | the depth-2 filter's output nests at most one level deep |
| NewickGenerator.ShallowUnchanged | src/include/quetzal/io/newick/generator.hpp:151-158 | text that already nests at most one level deep passes the filter unchanged |
| NewickGenerator.StripIdempotent | src/include/quetzal/io/newick/generator.hpp:145-161 | filtering twice is filtering once |
| NewickGenerator.StripKeepsBalance | src/include/quetzal/io/newick/generator.hpp:145-161 | balanced square brackets stay balanced through the filter |
| NewickGenerator.StripWithoutBrackets | src/include/quetzal/io/newick/generator.hpp:151-158 | text without square brackets passes the filter unchanged |
| NewickGenerator.StripConcat | src/include/quetzal/io/newick/generator.hpp:151-158 | the filter over a concatenation continues from the depth reached on the first part |
| NewickGenerator.StripDeepWithoutBrackets | src/include/quetzal/io/newick/generator.hpp:157 | text without brackets read at depth 2 or more is dropped entirely |
| NewickGenerator.StripCloseOuter | src/include/quetzal/io/newick/generator.hpp:154-157 | a `]` that closes the outer comment is kept |
| NewickGenerator.StripInnerComment | src/include/quetzal/io/newick/generator.hpp:153-157 | an inner comment read at depth 1 is dropped together with its brackets |
| NewickGenerator.StripNestedComment | src/include/quetzal/io/newick/generator.hpp:145-161 | a comment nested inside a comment is dropped, the outer comment kept |
| NewickGenerator.StripExample | src/include/quetzal/io/newick/generator.hpp:145-161 | `(A:5,B[Comment[Nested]]:5)r;` becomes `(A:5,B[Comment]:5)r;` |
| NewickGenerator.ParenFreeEnd | src/include/quetzal/io/newick/generator.hpp:136 | the end of the parenthesis-free run starting at `i` |
| NewickGenerator.LastClose | src/include/quetzal/io/newick/generator.hpp:136 | the last `]` in a range, as the greedy match of the pattern ends |
| NewickGenerator.ParenSurvivesDepth1 | src/include/quetzal/io/newick/generator.hpp:130-138 | no match of `\[[^()]*\]` contains a parenthesis, so every parenthesis survives `remove_comments_of_depth<1>` |
| NewickGenerator.Depth1WithoutBrackets | src/include/quetzal/io/newick/generator.hpp:130-138 | text without `[` passes `remove_comments_of_depth<1>` unchanged |
| NewickGenerator.RemoveCommentsOfDepth1 | src/include/quetzal/io/newick/generator.hpp:130-138 | `remove_comments_of_depth<1>::edit` never lengthens its text, and leaves text without `[` (the empty text included) unchanged |
| NewickGenerator.RemoveDepth1From | src/include/quetzal/io/newick/generator.hpp:136 | the regex replacement from index `i` yields at most the `|s| - i` remaining characters |
| NewickGenerator.Depth1KeepsPlainPrefix | src/include/quetzal/io/newick/generator.hpp:130-138 | the text before the first `[` is kept |
| NewickGenerator.Depth1RemovesComment | src/include/quetzal/io/newick/generator.hpp:130-138 | a bracketed comment without parentheses, and without brackets after it, is removed |
| NewickGenerator.Depth1Example | src/include/quetzal/io/newick/generator.hpp:130-138 | `(A:5,B[Comment[Nested]]:5)r;` becomes `(A:5,B:5)r;` |
| NewickGenerator.ParenMakesLabelIllegal | src/include/quetzal/io/newick/generator.hpp:308-314 | a parenthesis anywhere in a label, in a comment or not, makes `_post_order` raise `invalid_argument` (also lines 394-400 of the same file) |
| NewickGenerator.LegalLabelHasNoParens | src/include/quetzal/io/newick/generator.hpp:308-314 | an accepted label holds no parenthesis (also lines 394-400 of the same file) |
| NewickGenerator.AcceptedLabels | src/include/quetzal/io/newick/generator.hpp:308-314 | `a:b` and `b[my[comment]]` are accepted labels, `a b` is not (also lines 394-400 of the same file) |
| NewickGenerator.StripFromStart | src/include/quetzal/io/newick/generator.hpp:145-160 | from the start of a text, the depth-2 filter leaves text without square brackets alone and makes comments that never close an unopened bracket nest at most one level |
| NewickGenerator.TreatComments | src/include/quetzal/io/newick/generator.hpp:166-204 | PAUP's `treat_comments` returns the text unchanged; TreeAlign's and PHYLIP's leave comments at most one level deep; without square brackets every flavour leaves the text as it is |
| NewickGenerator.RootBranchLength | src/include/quetzal/io/newick/generator.hpp:169-197 | `root_branch_length` is non-empty (`:0.0`) exactly for TreeAlign, and holds no character the Newick grammar reserves |
| NewickGenerator.LegalSuffixesAvoidParens | src/include/quetzal/io/newick/generator.hpp:300-328 | with accepted labels, branch lengths without parentheses, and a root label without them, no node suffix holds a parenthesis |
| NewickGenerator.NewickUnfold | src/include/quetzal/io/newick/generator.hpp:287-328 | a node with children is written as its children between parentheses, followed by its suffix |
| NewickGenerator.NewickParensBalanced | src/include/quetzal/io/newick/generator.hpp:287-328 | the parentheses of the generated formula are balanced from any starting depth |
| NewickGenerator.NewickAvoids | src/include/quetzal/io/newick/generator.hpp:287-328 | brackets that no suffix holds do not appear in the generated formula |
| NewickGenerator.Newick | src/include/quetzal/io/newick/generator.hpp:287-328 | the text the visitors write for a node with children opens with `(` and holds at least its two parentheses and the commas between its children |
| NewickGenerator.BranchSet | src/include/quetzal/io/newick/generator.hpp:295-306 | the text of the first `n` children holds at least the `n - 1` commas between them |
| NewickGenerator.GeneratedFormulaAccepted | src/include/quetzal/io/newick/generator.hpp:413-430 | `take_result` accepts every formula the visitors generate when no suffix holds a parenthesis or a square bracket, returning it with `;` appended |
| NewickGenerator.TerminatedWithoutBrackets | src/include/quetzal/io/newick/generator.hpp:413-418 | appending `;` to text without square brackets: `treat_comments` leaves it and the brackets are balanced |
| NewickGenerator.TerminatedParensBalanced | src/include/quetzal/io/newick/generator.hpp:415-419 | appending `;` keeps a formula's parentheses balanced |
| NewickGenerator.Generator.constructor | src/include/quetzal/io/newick/generator.hpp:355-361 | a new generator has an empty formula and the given label, branch length and policy |
| NewickGenerator.Generator.PreOrder | src/include/quetzal/io/newick/generator.hpp:287-293 | `_pre_order` opens a parenthesis exactly on a node with children |
| NewickGenerator.Generator.InOrder | src/include/quetzal/io/newick/generator.hpp:295-298 | `_in_order` appends a comma |
| NewickGenerator.Generator.PostOrder | src/include/quetzal/io/newick/generator.hpp:300-328 | `_post_order` closes the parenthesis in place of the last comma, then raises `invalid_argument` for a non-root node whose label is illegal, and otherwise appends the label with the branch length, or for the root the policy's root branch length |
| NewickGenerator.Generator.Clear | src/include/quetzal/io/newick/generator.hpp:405-408 | `clear` empties the formula |
| NewickGenerator.Generator.TakeResult | src/include/quetzal/io/newick/generator.hpp:413-430 | `take_result` terminates the formula with `;`, treats comments, and raises `runtime_error` when parentheses or square brackets are not balanced |
| NewickGenerator.Generator.VisitGenericDfs | src/include/quetzal/io/newick/generator.hpp:287-328 | a depth-first traversal calling the three hooks succeeds exactly when every label is legal, and then appends the Newick text of the tree |
| NewickGenerator.Generator.VisitChildren | src/include/quetzal/io/newick/generator.hpp:295-298 | the loop over the children succeeds exactly when each child's labels are legal, and appends each child's text followed by a comma |
| NewickGenerator.ClosingFormula | src/include/quetzal/io/newick/generator.hpp:300-306 | once every child has been visited, the post-order hook sees a non-empty formula and leaves the node's Newick text |
| NewickGenerator.ClosingParenthesis | src/include/quetzal/io/newick/generator.hpp:300-306 | for an inner node whose opening parenthesis is written, replacing the comma after its last child by `)` and appending the node's label and branch length yields exactly its Newick text after the prefix |
| NewickGenerator.NoTextPair | src/include/quetzal/io/newick/generator.hpp:287-328 | an unlabelled inner node with two tips is written `(,)` |
| NewickGenerator.FixtureWithoutLabels | src/include/quetzal/io/newick/generator.hpp:166-189 | without labels and branch lengths, PAUP gives `(,(,));` and TreeAlign `(,(,)):0.0;` (also lines 287-328 of the same file) |
| NewickGenerator.FixtureWithLabels | src/include/quetzal/io/newick/generator.hpp:287-328 | with the cell as label, PAUP gives `(b,(d,e)c)a;` |
| NewickGenerator.FixtureTakeResult | src/include/quetzal/io/newick/generator.hpp:413-430 | `take_result` accepts the fixture formula in both flavours |
| Trees.MakeTree | include/quetzal/coalescence/containers/Tree.h:285-298 | `Tree(cell)` is a parentless root without children holding `cell`, one node in all |
| Trees.MakeTreeWith | include/quetzal/coalescence/containers/Tree.h:319-325 | `Tree(cell, children)` is a parentless root whose children, with their subtrees unchanged, are re-parented to it |
| Trees.ReparentedStayWellParented | include/quetzal/coalescence/containers/Tree.h:323-324 | re-parenting well-formed children keeps each one well formed |
| Trees.CopyOf | include/quetzal/coalescence/containers/Tree.h:301-307 | the copy constructor gives a parentless root with the same cell, the same children and the same size |
| Trees.AddChildAsWritten | include/quetzal/coalescence/containers/Tree.h:359-374 | `add_child(subtree)` as written appends the subtree after the existing children with `has_parent()` false, since `push_back(std::move(...))` runs the move constructor that resets `m_parent`; on reallocation every earlier child loses its flag too; the result is never well parented |
| Trees.AddChildCellAsWritten | include/quetzal/coalescence/containers/Tree.h:376-382 | `add_child(cell)` as written returns the stored leaf child, whose `has_parent()` is false |
| Trees.AddChildLosesParent | include/quetzal/coalescence/containers/Tree.h:359-382 | `Tree<int> t(1); t.add_child(2).has_parent()` is false as written, and every as-written `add_child` differs from the corrected one |
| Trees.AddChild | include/quetzal/coalescence/containers/Tree.h:359-374 | the corrected `add_child(subtree)` (see Findings) appends the subtree with its parent recorded after the existing children, keeps the tree well parented and returns the parent itself |
| Trees.AddChildCell | include/quetzal/coalescence/containers/Tree.h:376-382 | the corrected `add_child(cell)` (see Findings) appends a new leaf child whose parent is recorded and returns that child |
| Trees.MoveAssign | include/quetzal/coalescence/containers/Tree.h:337-345 | move assignment takes the other's cell and children and keeps its own parent link |
| Trees.CopyAssign | include/quetzal/coalescence/containers/Tree.h:328-334 | copy assignment moves a copy of the other into `*this`: it takes the other's cell and children, keeps its own parent link and stays well parented |
| Trees.CopyAssignAgreesWithMove | include/quetzal/coalescence/containers/Tree.h:328-345 | copy assignment leaves the same tree as move assignment |
| Trees.CellsConcat | include/quetzal/coalescence/containers/Tree.h:213-220 | the cells of concatenated node lists concatenate |
| Trees.PreOrderCellsAreSubtreeCells | include/quetzal/coalescence/containers/Tree.h:213-228 | the cell visitor and the subtree visitor go through the nodes in the same order, one visit per node |
| Trees.LeavesAreChildlessPreOrder | include/quetzal/coalescence/containers/Tree.h:263-273 | the leaf visitor hands out exactly the childless nodes of the pre-order, left to right |
| Trees.GenericDfsPreOrder | include/quetzal/coalescence/containers/Tree.h:230-239 | the pre-order hook of the generic search sees the nodes in pre-order |
| Trees.ExampleTreeVisits | include/quetzal/coalescence/containers/Tree.h:213-273 | on the seven-node example, pre-order visits `abcdefg` and the leaves are `cdfg` |
| Forests.AllTrees | include/quetzal/coalescence/containers/Forest.h:274-281 | the trees of `get_all_trees` are the forest's entries' trees, one per entry, in iteration order |
| Forests.Pairs | include/quetzal/coalescence/containers/Forest.h:383-388 | inserting a vector of trees at one position adds exactly one (position, tree) entry per tree, in order |
| Forests.CountMeaning | include/quetzal/coalescence/containers/Forest.h:350-380 | `nb_trees(x)` counts the trees at `x`, is positive exactly at the forest's positions, and `erase(x)` removes those trees and leaves every other position's trees and count as they were |
| Forests.AppendMeaning | include/quetzal/coalescence/containers/Forest.h:367-370 | one inserted entry adds one to its own position's count, appends its tree there, and leaves every other position unchanged |
| Forests.AppendPairsMeaning | include/quetzal/coalescence/containers/Forest.h:382-388 | inserting a vector at `x` raises the count at `x` by its length and appends its trees there; other positions are unchanged |
| Forests.SizeIsSumOfCounts | include/quetzal/coalescence/containers/Forest.h:345-353 | `nb_trees()` equals the sum of `nb_trees(x)` over all positions |
| Forests.Forest.constructor | include/quetzal/coalescence/containers/Forest.h:285-288 | a default-constructed forest holds no tree |
| Forests.Forest.Copy | include/quetzal/coalescence/containers/Forest.h:290-293 | the copy constructor yields the same entries as the original |
| Forests.Forest.Assign | include/quetzal/coalescence/containers/Forest.h:300-306 | copy assignment leaves this forest with the other forest's entries |
| Forests.Forest.NbTrees | include/quetzal/coalescence/containers/Forest.h:345-348 | `nb_trees()` is the number of entries and the sum of the per-position counts |
| Forests.Forest.NbTreesAt | include/quetzal/coalescence/containers/Forest.h:350-353 | `nb_trees(x)` is the number of trees at `x` and is positive exactly when `x` is a position of the forest |
| Forests.Forest.TreesAtSamePosition | include/quetzal/coalescence/containers/Forest.h:355-365 | the range requires at least one tree at the position (the source asserts it) and holds exactly the trees there |
| Forests.Forest.Insert | include/quetzal/coalescence/containers/Forest.h:367-375 | `insert(x, tree)` appends one entry; the count and trees at `x` grow by that tree and no other position changes |
| Forests.Forest.InsertAll | include/quetzal/coalescence/containers/Forest.h:382-396 | `insert(x, trees)` appends one entry per tree; the count at `x` grows by the vector's length and no other position changes |
| Forests.Forest.Erase | include/quetzal/coalescence/containers/Forest.h:377-380 | `erase(x)` removes exactly the trees at `x`, returns how many they were, and drops `x` from the positions |
| Forests.Forest.EraseRange | include/quetzal/coalescence/containers/Forest.h:256-258 | erasing an iterator range removes exactly the entries between the two iterators |
| Forests.Forest.Positions | include/quetzal/coalescence/containers/Forest.h:398-405 | `positions()` is the set of positions holding at least one tree |
| Forests.Forest.GetAllTrees | include/quetzal/coalescence/containers/Forest.h:274-281 | `get_all_trees()` returns every tree, as many as `nb_trees()` |
| Forests.ForestInsertScenario | test/unit_test/coalescence_test.cpp:80-97 | the unit test's insertions (one tree at 1, two at 2, two at 3, one at 4) give 6 trees, 2 of them at position 3, and the last one entered is `(4, "salix_nigra")` |
| DistanceToParent.ComputeDistancesMeaning | include/quetzal/coalescence/policies/distance_to_parent.h:52-104 | the pre-order treatment gives every node the absolute time difference to its parent (0 at the root) and changes nothing else in the tree |
| DistanceToParent.DistancesDetermined | include/quetzal/coalescence/policies/distance_to_parent.h:52-65 | two trees differing only in distances that both satisfy the treatment's rule are equal: the rule determines every distance |
| DistanceToParent.ComputeDistancesIdempotent | include/quetzal/coalescence/policies/distance_to_parent.h:52-65 | applying the treatment to a tree whose distances already follow the rule, or twice, changes nothing |
| DistanceToParent.CountAtIsCount | include/quetzal/coalescence/containers/Forest.h:350-353 | the count of a position in a forest is its number of occurrences among the entries' positions |
| DistanceToParent.MakeNamedForest | include/quetzal/coalescence/policies/distance_to_parent.h:245-255 | the leaf-name `make_forest` puts at each sampled deme exactly as many tips as its sample count, each named by `get_name` and dated at the sampling time, and nothing elsewhere |
| DistanceToParent.MakeForest | include/quetzal/coalescence/policies/distance_to_parent.h:67-73 | `make_forest` puts at each deme exactly its sample count of unnamed tips dated at the sampling time |
| DistanceToParent.SampleEntries | include/quetzal/coalescence/policies/distance_to_parent.h:268-278 | the individuals overload inserts one tip per individual, at `get_location` and named by `get_name`, in sample order |
| DistanceToParent.MakeForestOfSample | include/quetzal/coalescence/policies/distance_to_parent.h:268-278 | the forest built from a sample holds exactly the entries `SampleEntries` describes |
| DistanceToParent.SampleForestCounts | include/quetzal/coalescence/policies/distance_to_parent.h:268-278 | the number of tips at a deme equals the number of individuals whose location is that deme |
| DistanceToParent.VisitTreat | include/quetzal/coalescence/policies/distance_to_parent.h:108-131 | the three visitor lambdas driven by the generic depth-first search append exactly the node's Newick formula to the buffer (also lines 321-348 of the same file) |
| DistanceToParent.TreatPostOrder | include/quetzal/coalescence/policies/distance_to_parent.h:121-130 | the post-order lambda replaces the trailing comma by `)` at an inner node, then writes the node's name (leaf-name policy) and `:` with its distance when it has a parent (also lines 334-347 of the same file) |
| DistanceToParent.VisitTreatChildren | include/quetzal/coalescence/policies/distance_to_parent.h:117-119 | visiting the children writes each child's formula followed by a comma (also lines 330-333 of the same file) |
| DistanceToParent.Treat | include/quetzal/coalescence/policies/distance_to_parent.h:108-134 | `treat` returns the tree's formula followed by `;` (also lines 321-351 of the same file) |
| DistanceToParent.TreatSuffixesAvoidParens | include/quetzal/coalescence/policies/distance_to_parent.h:126-129 | no written name or branch length holds a parenthesis when no node name does (also lines 341-346 of the same file) |
| DistanceToParent.TreatBalanced | include/quetzal/coalescence/policies/distance_to_parent.h:108-134 | when no name holds a parenthesis, the parentheses of `treat`'s output are balanced (also lines 321-351 of the same file) |
| DistanceToParent.CherryDistances | include/quetzal/coalescence/policies/distance_to_parent.h:52-65 | in a cherry whose root is at time 10 and whose tips are sampled at time 0, both tips get distance 10 and the root keeps 0 |
| DistanceToParent.TipFormula | include/quetzal/coalescence/policies/distance_to_parent.h:121-130 | a tip below the root is written as its name and branch length alone |
| DistanceToParent.CherryShape | include/quetzal/coalescence/policies/distance_to_parent.h:108-134 | a root with two tips is written `(` first tip `,` second tip `)` |
| DistanceToParent.CherryNamedFormula | include/quetzal/coalescence/policies/distance_to_parent.h:321-351 | the leaf-name policy writes that cherry as `(a:10,b:10);` |
| DistanceToParent.CherryUnnamedFormula | include/quetzal/coalescence/policies/distance_to_parent.h:108-134 | the unnamed policy writes that cherry as `(:10,:10);` |
| Merge.ShuffleFromIsPermutation | modules/coalescence/algorithms/merge.h:54 | the Fisher–Yates steps of `std::shuffle` keep every element with its multiplicity |
| Merge.ShuffledIsPermutation | modules/coalescence/algorithms/merge.h:54-124 | the shuffled range is a permutation of the original range |
| Merge.ShuffleStepsInRange | modules/coalescence/algorithms/merge.h:54-124 | `std::shuffle(first, last, g)` permutes the range alone: entries before `first` and from `last` on are unchanged |
| Merge.SwapAt | modules/coalescence/algorithms/merge.h:54 | `std::iter_swap` exchanges exactly two array cells |
| Merge.Shuffle | modules/coalescence/algorithms/merge.h:54-124 | the shuffle leaves the array as the range-restricted Fisher–Yates permutation of its old contents |
| Merge.FisherYates | modules/coalescence/algorithms/merge.h:54-124 | the shuffle's loop of swaps, from the last position of the range down to the second, does exactly the specified swaps |
| Merge.BinaryMerge | modules/coalescence/algorithms/merge.h:50-62 | `binary_merge` requires more than one element, shuffles, folds the first and the last element into the first with `op` from `init`, and returns `last - 1` |
| Merge.BinaryMergeSum | modules/coalescence/algorithms/merge.h:88-93 | with `T()` and `std::plus`, the range shrinks by one, keeps its total, and nothing outside it changes |
| Merge.BinaryMergedKeepsSum | modules/coalescence/algorithms/merge.h:88-93 | with 0 and `+`, the merged range carries the same total as the range it came from |
| Merge.SimultaneousMultipleMerge | modules/coalescence/algorithms/merge.h:120-147 | `simultaneous_multiple_merge` shuffles, then for each `j >= 2` builds `M_j` parents of `j` children each, and returns `last` moved back by the children merged away |
| Merge.MergeAllParents | modules/coalescence/algorithms/merge.h:127-145 | the loop over the spectrum from `M_2` on merges the parents in the order the loops take them |
| Merge.MergeParents | modules/coalescence/algorithms/merge.h:132-142 | the loop over the `M_j` parents of `j` children advances `first` by `M_j` and takes `(j - 1) M_j` children off the end |
| Merge.MergeGroup | modules/coalescence/algorithms/merge.h:133-141 | each parent folds its first child and `j - 1` children taken from the end of the range, which leave the range |
| Merge.BinaryMergeIsOneGroup | modules/coalescence/algorithms/merge.h:50-62 | `binary_merge` is the multiple merge of a single parent with two children (also lines 120-147 of the same file) |
| Merge.MergeSpectrumIgnoresLowEntries | modules/coalescence/algorithms/merge.h:127-129 | the merge starts at `M_2`: the entries `M_0` and `M_1` have no effect |
| Merge.MergeSpectrumFrame | modules/coalescence/algorithms/merge.h:120-147 | the multiple merge writes only inside `[first, last)` |
| Merge.MergeSpectrumKeepsSum | modules/coalescence/algorithms/merge.h:177-183 | with 0 and `+`, the survivors of the multiple merge carry the total of the range they came from |
| Merge.SimultaneousMultipleMergeSum | modules/coalescence/algorithms/merge.h:177-183 | with `T()` and `std::plus`, the survivor range keeps the total, ends `sum (j - 1) M_j` before `last`, and nothing outside the range changes |
| MergerPolicy.CoalescenceProbabilityExceedsOne | src/include/quetzal/coalescence/merger_policy.hpp:67-69 | three lineages in a population of one pass both asserts, yet `k (k - 1) / 2N` is 3, outside the domain of `std::bernoulli_distribution` |
| MergerPolicy.MergeProbability | src/include/quetzal/coalescence/merger_policy.hpp:67-69 | the merge probability lies in [0, 1], is `k (k - 1) / 2N` when that is at most 1, and is 1 otherwise |
| MergerPolicy.CertainMergeWhenProbabilityTooLarge | src/include/quetzal/coalescence/merger_policy.hpp:67-71 | when the Kingman probability exceeds 1, every uniform draw triggers the merge |
| MergerPolicy.SpectrumCountsBridge | modules/coalescence/algorithms/merge.h:127-145 | the children taken by the parents of `j` or more children are the balls counted from `j`, and all but one child per parent leave the range |
| MergerPolicy.BinaryMerger.Merge | src/include/quetzal/coalescence/merger_policy.hpp:60-75 | with probability `k (k - 1) / 2N` the binary merger performs `binary_merge` and returns `last - 1`; otherwise the range and `last` are unchanged |
| MergerPolicy.BinaryMerger.MergeSum | src/include/quetzal/coalescence/merger_policy.hpp:102-110 | with `T()` and `+`, the range either stays or shrinks by one and always keeps its total and its frame |
| MergerPolicy.SimultaneousMultipleMerger.Merge | src/include/quetzal/coalescence/merger_policy.hpp:149-159 | the multiple merger performs `simultaneous_multiple_merge` with the drawn spectrum; the survivors are one per occupied parent |
| MergerPolicy.SimultaneousMultipleMerger.MergeSum | src/include/quetzal/coalescence/merger_policy.hpp:185-193 | with `T()` and `+`, one survivor per occupied parent, and the survivors carry the range's total |
| MergerPolicy.SimultaneousMultipleMerger.MergeOnTheFly | src/include/quetzal/coalescence/merger_policy.hpp:149-159 | with the `on_the_fly` policy the survivors are exactly the parents that received a lineage, at least 1 and at most `N` |
| MergerPolicy.SimultaneousMultipleMerger.MergeSumOnTheFly | src/include/quetzal/coalescence/merger_policy.hpp:185-193 | the same merger with `+` keeps the range's total and touches nothing outside it |
| MergerPolicy.OccupiedBounds | src/include/quetzal/coalescence/merger_policy.hpp:149-159 | for at least one lineage, between 1 and `N` parents are occupied |
| MergerPolicy.OccupiedUrns | src/include/quetzal/coalescence/occupancy_spectrum/sampling_policy.hpp:75-89 | the parents the thrown lineages fall into are counted by the spectrum's entries other than `M_0` |
| SpectrumGenerator.EmittedConserves | coalescence/occupancy_spectrum/Generator.h:36-83 | every spectrum the recursion emits is the partial one completed with `n` more balls and `m` more urns |
| SpectrumGenerator.GeneratedAreSpectra | coalescence/occupancy_spectrum/Generator.h:26-30 | every spectrum `generate(n, m, callback)` hands to the callback has `n + 1` entries, `n` balls and `m` urns |
| SpectrumGenerator.NoBallsLeft | coalescence/occupancy_spectrum/Generator.h:44-50 | with no ball left and some urns, exactly one spectrum is emitted, with all those urns at `M_0` |
| SpectrumGenerator.StuckBranchEmitsNothing | coalescence/occupancy_spectrum/Generator.h:74-77 | a branch whose `j_max` is 0 while balls remain emits nothing |
| SpectrumGenerator.TwoBallsTwoUrns | coalescence/occupancy_spectrum/Generator.h:26-83 | two balls in two urns emit `[1, 0, 1]` then `[0, 2, 0]` |
| SpectrumGenerator.Generate | coalescence/occupancy_spectrum/Generator.h:26-30 | `generate` hands the callback exactly the enumeration of the spectra, in order |
| SpectrumGenerator.F | coalescence/occupancy_spectrum/Generator.h:36-83 | the recursive `f` hands the callback exactly the spectra `Emitted` lists for its arguments |
| SpectrumGenerator.VerticalDescent | coalescence/occupancy_spectrum/Generator.h:55-68 | the loop over `i = n / j_max, ..., 1` emits, for each `i <= m`, the spectra with `i` urns of `j_max` balls |
| Occupancy.Zeros | coalescence/occupancy_spectrum/Generator.h:28 | a vector of `len` zeros, the vector the enumeration starts from |
| Occupancy.OccupancySpectrum.constructor | src/include/quetzal/coalescence/occupancy_spectrum/OccupancySpectrum.hpp:92-133 | construction requires what the constructor asserts, non-negative `k` and `N`, non-negative entries and both conservation laws, and establishes the class invariant |
| Occupancy.OccupancySpectrum.TestNumberOfBallsConservation | src/include/quetzal/coalescence/occupancy_spectrum/OccupancySpectrum.hpp:55-64 | the test holds exactly when the sum of `i M_i` is `k` |
| Occupancy.OccupancySpectrum.TestNumberOfUrnsConservation | src/include/quetzal/coalescence/occupancy_spectrum/OccupancySpectrum.hpp:68-77 | the test holds exactly when the sum of `M_i` is `N` |
| Occupancy.OccupancySpectrum.CopyAssign | src/include/quetzal/coalescence/occupancy_spectrum/OccupancySpectrum.hpp:137-144 | copy assignment takes the vector, `N` and `k` together and keeps the invariant of the source |
| Occupancy.OccupancySpectrum.MoveAssign | src/include/quetzal/coalescence/occupancy_spectrum/OccupancySpectrum.hpp:152-158 | move assignment takes the same three fields and leaves the moved-from vector empty |
| Occupancy.OccupancySpectrum.Erase | src/include/quetzal/coalescence/occupancy_spectrum/OccupancySpectrum.hpp:204-207 | `erase(first, last)` removes exactly the entries in the range and leaves `k` and `N` |
| Occupancy.OccupancySpectrum.Empty | src/include/quetzal/coalescence/occupancy_spectrum/OccupancySpectrum.hpp:211-214 | `empty()` holds exactly when the vector has no entry |
| Occupancy.EraseZeroTailKeepsSpectrum | src/include/quetzal/coalescence/occupancy_spectrum/OccupancySpectrum.hpp:204-207 | erasing a tail of zero entries keeps both conservation laws |
| Occupancy.EraseCanBreakSpectrum | src/include/quetzal/coalescence/occupancy_spectrum/OccupancySpectrum.hpp:204-207 | `erase` does not re-check the invariant: erasing a non-zero entry breaks it |
| SamplingPolicy.Loads | src/include/quetzal/coalescence/occupancy_spectrum/sampling_policy.hpp:76-82 | each parent's load is the number of lineages thrown into it |
| SamplingPolicy.LoadsSum | src/include/quetzal/coalescence/occupancy_spectrum/sampling_policy.hpp:79-82 | every lineage lands in some parent: the loads add up to `k` |
| SamplingPolicy.Occupancies | src/include/quetzal/coalescence/occupancy_spectrum/sampling_policy.hpp:70-88 | `on_the_fly::sample` builds `k + 1` entries, `M_r` being the number of parents holding `r` lineages, and they satisfy both conservation laws |
| SamplingPolicy.OnTheFly | src/include/quetzal/coalescence/occupancy_spectrum/sampling_policy.hpp:70-90 | the spectrum returned is a valid `OccupancySpectrum` for `k` and `N` built from the loads |
| SamplingPolicy.InMemoized | src/include/quetzal/coalescence/occupancy_spectrum/sampling_policy.hpp:48-54 | `in_memoized_distribution::sample` returns the drawn spectrum of the distribution of `k` and `N`, a spectrum of `k` balls in `N` urns |
| SpectrumDistribution.ReturnAlwaysTrue | modules/coalescence/occupancy_spectrum/OccupancySpectrumDistribution.h:34-39 | the default filter keeps every spectrum |
| SpectrumDistribution.Identity | modules/coalescence/occupancy_spectrum/OccupancySpectrumDistribution.h:41-47 | the default editor returns the spectrum unchanged |
| SpectrumDistribution.TruncateTail | modules/coalescence/occupancy_spectrum/OccupancySpectrumDistribution.h:49-60 | `truncate_tail::handle` walks back over the trailing zeros and erases them, never the first entry |
| SpectrumDistribution.TruncatedShape | modules/coalescence/occupancy_spectrum/OccupancySpectrumDistribution.h:49-60 | the result is a non-empty prefix, every entry cut off is zero, and it ends on a non-zero entry unless only the first is left |
| SpectrumDistribution.TruncatedIdempotent | modules/coalescence/occupancy_spectrum/OccupancySpectrumDistribution.h:49-60 | truncating twice is truncating once |
| SpectrumDistribution.TruncatedKeepsSpectrum | modules/coalescence/occupancy_spectrum/OccupancySpectrumDistribution.h:49-60 | dropping trailing zeros keeps both conservation laws |
| SpectrumDistribution.KeptSameLength | modules/coalescence/occupancy_spectrum/OccupancySpectrumDistribution.h:259-267 | the support and the weights stay in step, one weight per kept spectrum |
| SpectrumDistribution.KeptAreHandled | modules/coalescence/occupancy_spectrum/OccupancySpectrumDistribution.h:259-267 | each kept spectrum is an enumerated one passed through the editor |
| SpectrumDistribution.AlwaysTrueKeepsAll | modules/coalescence/occupancy_spectrum/OccupancySpectrumDistribution.h:34-39 | with the default filter and editor, the support is the whole enumeration (also lines 259-267 of the same file) |
| SpectrumDistribution.SupportAreSpectra | modules/coalescence/occupancy_spectrum/OccupancySpectrumDistribution.h:141-150 | every spectrum of the support of `k` balls in `N` urns satisfies both conservation laws |
| SpectrumDistribution.OccupancySpectrumDistribution.constructor | modules/coalescence/occupancy_spectrum/OccupancySpectrumDistribution.h:141-150 | the constructor runs the enumeration through the callback; the support and weights are the kept spectra and their probabilities, of equal length |
| SpectrumDistribution.OccupancySpectrumDistribution.Receive | modules/coalescence/occupancy_spectrum/OccupancySpectrumDistribution.h:146-147 | handing a stream of spectra to the callback appends exactly the kept ones and their weights |
| SpectrumDistribution.OccupancySpectrumDistribution.Callback | modules/coalescence/occupancy_spectrum/OccupancySpectrumDistribution.h:259-267 | the callback appends the edited spectrum and its probability when the filter accepts the probability, and changes nothing otherwise |
| SpectrumDistribution.OccupancySpectrumDistribution.Sample | modules/coalescence/occupancy_spectrum/OccupancySpectrumDistribution.h:200-203 | `operator()(g)` returns the support entry at the drawn index |
| KAryTrees.Fan | src/include/quetzal/coalescence/graph/k_ary_tree.hpp:336-341 | `add_edges` returns one edge from the parent to each child, in the children's order |
| KAryTrees.FanDegrees | src/include/quetzal/coalescence/graph/k_ary_tree.hpp:330-342 | those edges add one out-edge to the parent per child and one in-edge to each child per occurrence |
| KAryTrees.SplitPoint | src/include/quetzal/coalescence/graph/k_ary_tree.hpp:247-248 | the split point drawn by `uniform_int_distribution(1, size - 1)` lies in `[1, size - 1]`, so both parts are non-empty |
| KAryTrees.BuildTree | src/include/quetzal/coalescence/graph/k_ary_tree.hpp:233-262 | a build over `n` leaves adds `n - 1` parents with two edges each; its root is the only leaf or the first parent added |
| KAryTrees.BuildDegrees | src/include/quetzal/coalescence/graph/k_ary_tree.hpp:233-262 | the build is a binary tree: every added parent has two children and, but for the root, one parent; every leaf has no child and, unless it is the root, one parent |
| KAryTrees.KAryTree.constructor | src/include/quetzal/coalescence/graph/k_ary_tree.hpp:314 | a default-constructed tree has no vertex and no edge (also lines 380, 464 of the same file) |
| KAryTrees.KAryTree.AddVertex | src/include/quetzal/coalescence/graph/k_ary_tree.hpp:324-327 | `add_vertex()` returns the next vertex identifier and adds no edge |
| KAryTrees.KAryTree.AddEdges | src/include/quetzal/coalescence/graph/k_ary_tree.hpp:330-342 | `add_edges` requires at least two children, none equal to the parent (the source asserts both), appends and returns one edge per child, and raises exactly the parent's out-degree and the children's in-degrees |
| KAryTrees.KAryTree.HasSuccessors | src/include/quetzal/coalescence/graph/k_ary_tree.hpp:149-154 | `has_successors(u)` requires that `u` does not have exactly one child (the source asserts it) and holds exactly when `u` has children |
| KAryTrees.KAryTree.UpdateTree | src/include/quetzal/coalescence/graph/k_ary_tree.hpp:233-262 | `update_tree` returns a single leaf as it is; otherwise it adds exactly the vertices and edges of the build and returns its root |
| KAryTrees.KAryTree.BuildHalves | src/include/quetzal/coalescence/graph/k_ary_tree.hpp:250-259 | the middle of `update_tree` adds a fresh parent, then builds the left part before the right part |
| KAryTrees.MakeRandomTree | src/include/quetzal/coalescence/graph/k_ary_tree.hpp:266-276 | `make_random_tree` over `n` leaves yields `2n - 1` vertices and `2(n - 1)` edges, rooted at the only leaf or at vertex `n` |
| KAryTrees.RandomTreeIsBinary | src/include/quetzal/coalescence/graph/k_ary_tree.hpp:266-276 | the random tree is binary: leaves have no child, parents two, and every vertex but the root has one parent |
| CardinalTrees.TraversalBounds | src/include/quetzal/coalescence/graph/detail/cardinal_k_ary_tree.hpp:474-485 | every state of the recursive traversal from `u` is at `u` or below it, and post(u) comes last and only there |
| CardinalTrees.TraverseStep | src/include/quetzal/coalescence/graph/detail/cardinal_k_ary_tree.hpp:488-528 | one step from pre descends left or moves on to in; from in it descends right with stage pre or moves on to post; from post it climbs to the predecessor, with stage in exactly when it was a left successor; the result is +1, 0 or -1 accordingly |
| CardinalTrees.TraversalChain | src/include/quetzal/coalescence/graph/detail/cardinal_k_ary_tree.hpp:474-528 | in a linked tree, stepping from pre(u) passes through exactly the recursive traversal's states, in its order |
| CardinalTrees.Traverse | src/include/quetzal/coalescence/graph/detail/cardinal_k_ary_tree.hpp:530-548 | the stackless `traverse` makes no visit from the null vertex and otherwise makes exactly the visits of `traverse_nonempty` |
| CardinalTrees.Top | src/include/quetzal/coalescence/graph/detail/cardinal_k_ary_tree.hpp:245-258 | following predecessors from `u` ends at a vertex without predecessor |
| CardinalTrees.Root | src/include/quetzal/coalescence/graph/detail/cardinal_k_ary_tree.hpp:245-258 | `root(u)` climbs through predecessors to the root of the tree holding `u` |
| CardinalTrees.RootCoversVertex | src/include/quetzal/coalescence/graph/detail/cardinal_k_ary_tree.hpp:245-258 | everything the traversal from `u` visits, the traversal from `root(u)` visits too (also lines 474-485 of the same file) |
| CardinalTrees.RemoveUndoesAdd | src/include/quetzal/coalescence/graph/detail/cardinal_k_ary_tree.hpp:384-408 | removing an edge just added gives back the graph it was added to |
| CardinalTrees.AddKeepsLinked | src/include/quetzal/coalescence/graph/detail/cardinal_k_ary_tree.hpp:384-395 | adding an edge to a root from a vertex with a free successor slot keeps successors and predecessors in agreement |
| CardinalTrees.RemoveKeepsLinked | src/include/quetzal/coalescence/graph/detail/cardinal_k_ary_tree.hpp:402-408 | removing an edge keeps successors and predecessors in agreement |
| CardinalTrees.BidirectionalTree.constructor | src/include/quetzal/coalescence/graph/detail/cardinal_k_ary_tree.hpp:186-211 | a tree of `n` vertices starts with no edge |
| CardinalTrees.BidirectionalTree.AddEdge | src/include/quetzal/coalescence/graph/detail/cardinal_k_ary_tree.hpp:384-395 | `add_edge(u, v)` is refused, changing nothing, when `v` already has a predecessor or `u` has no free successor slot; otherwise `v` becomes a successor of `u` and `u` its predecessor |
| CardinalTrees.BidirectionalTree.RemoveEdge | src/include/quetzal/coalescence/graph/detail/cardinal_k_ary_tree.hpp:402-408 | `remove_edge(u, v)` requires `u` to be the predecessor of `v` (the source asserts it), removes the edge and clears the predecessor of `v` |
| CardinalTrees.IsomorphicNonemptyMatchesShape | src/include/quetzal/coalescence/graph/detail/cardinal_k_ary_tree.hpp:551-582 | the corrected comparison holds exactly when the two subtrees have the same shape |
| CardinalTrees.AsWrittenAcceptsSameShape | src/include/quetzal/coalescence/graph/detail/cardinal_k_ary_tree.hpp:551-582 | as written, the comparison still accepts every pair of subtrees of the same shape |
| CardinalTrees.LeafMatchesCherryAsWritten | src/include/quetzal/coalescence/graph/detail/cardinal_k_ary_tree.hpp:568-579 | as written, a lone vertex is matched with a vertex that has two successors, although their shapes differ |
| CardinalTrees.IsomorphismMatchesShape | src/include/quetzal/coalescence/graph/detail/cardinal_k_ary_tree.hpp:656-664 | different vertex counts are never isomorphic, two empty graphs always are, and otherwise the trees from vertex 0 must have the same shape |
| CardinalTrees.IsolatedPairMatchesEdgeAsWritten | src/include/quetzal/coalescence/graph/detail/cardinal_k_ary_tree.hpp:656-664 | as written, two isolated vertices are reported isomorphic to a graph with one edge (also lines 568-569 of the same file) |
| CardinalTrees.StagesDetermineShape | src/include/quetzal/coalescence/graph/detail/cardinal_k_ary_tree.hpp:585-604 | a shape is determined by its sequence of stages: two shapes whose stage sequences agree as far as the shorter goes are equal |
| CardinalTrees.TraversalStages | src/include/quetzal/coalescence/graph/detail/cardinal_k_ary_tree.hpp:474-485 | the traversal from `u` goes through the stages of its shape, in order |
| CardinalTrees.BifurcateIsomorphic | src/include/quetzal/coalescence/graph/detail/cardinal_k_ary_tree.hpp:585-604 | `bifurcate_isomorphic` answers, for two empty trees, true; for exactly one empty tree, false; otherwise true exactly when the two trees have the same shape |
| CardinalTrees.Lockstep | src/include/quetzal/coalescence/graph/detail/cardinal_k_ary_tree.hpp:595-603 | stepping both trees together and stopping at the first differing stage or at post at the first root answers whether the shapes are equal |
| CardinalTrees.BidirectionalIsomorphism | src/include/quetzal/coalescence/graph/detail/cardinal_k_ary_tree.hpp:672-680 | `isomorphism` of two bidirectional trees holds exactly when the vertex counts agree and either both are empty or the trees from vertex 0 have the same shape |
| Common.NatToStringValue | include/quetzal/coalescence/policies/distance_to_parent.h:128 | the decimal digits `std::to_string` writes for a branch length read back as that length |
| Common.CDivRem | include/quetzal/expressive/expressive.h:384-387 | `std::divides` and `std::modulus` on integers truncate toward zero: quotient times divisor plus remainder gives the dividend back, and the remainder is smaller than the divisor and has the dividend's sign |
| Histories.Emigrants | modules/demography/History.h:395-400 | the destinations drawn for the `n` individuals leaving `x` at `t` number exactly `n` |
| Histories.FlowsAfterMeaning | modules/demography/History.h:395-399 | after deme `x` disperses `n` individuals, the flow from `x` to each deme at `t` has grown by the number of its emigrants sent there, and no other flow has changed |
| Histories.FlowsAfterKeys | modules/demography/History.h:395-399 | the unit flows store a key exactly when it was stored before or some individual of `x` went that way |
| Histories.ReverseAfterMeaning | modules/demography/History.h:398 | the unit flows keep the forward and reverse flow indexes consistent and leave the reverse entries of other times alone |
| Histories.SizesAfterFrame | modules/demography/History.h:399 | the arrivals of one deme change no population size at a time other than `t + 1` |
| Histories.AddArrivalsOne | modules/demography/History.h:399 | one more arrival at `y` adds one to the size of `y` |
| Histories.AddArrivalsNone | modules/demography/History.h:399 | no arrival leaves a layer of sizes unchanged |
| Histories.SizesAfterLayer | modules/demography/History.h:395-400 | the layer at `t + 1` is the former one with the emigrants of `x` added, and it exists once anyone arrives |
| Histories.ArrivalsOf | modules/demography/History.h:389-402 | the individuals leaving the demes of a generation number the sum of their offspring counts |
| Histories.TotalGrowthZero | modules/demography/History.h:392-407 | the landscape count is 0 exactly when every deme drew no offspring |
| Histories.GenFlowsMeaning | modules/demography/History.h:389-402 | after a generation at `t`, every flow from a deme of the definition space is that deme's number of emigrants to the destination, added to what was stored; the keys stored are those with an emigrant |
| Histories.GenReverseMeaning | modules/demography/History.h:389-402 | a generation keeps the two flow indexes consistent and touches no reverse entry of another time |
| Histories.GenSizesFrame | modules/demography/History.h:389-402 | a generation at `t` changes no size at a time other than `t + 1` |
| Histories.GenSizesLayer | modules/demography/History.h:389-402 | the layer at `t + 1` is the former one with all arrivals of the generation added |
| Histories.AddArrivalsSum | modules/demography/History.h:389-402 | arrivals added in two batches give the same layer as all at once |
| Histories.ArrivalsRemove | modules/demography/History.h:389 | the arrivals of a set of demes do not depend on which deme is taken first |
| Histories.ArrivalsOfIsArrivals | modules/demography/History.h:389 | the arrivals of the demes, in whatever order the definition space lists them, are those of the set of demes |
| Histories.ArrivalsSize | modules/demography/History.h:389-402 | as many individuals arrive as the demes produce |
| Histories.CountsTotal | modules/demography/History.h:399 | the sizes made by counting arrivals sum to the number of individuals |
| Histories.GenerationConserves | modules/demography/History.h:389-402 | conservation: the sizes at `t + 1` sum to the total offspring at `t`, and each deme sends away exactly its offspring |
| Histories.GenerationHoldsFrame | modules/demography/History.h:389-402 | the law of a generation reads only the sizes at `t` and `t + 1` and the flows at `t` |
| Histories.ExpandStep | modules/demography/History.h:379-409 | a generation that changes nothing up to `t` preserves the earlier history and the laws of the earlier generations |
| Histories.GenerationAgrees | modules/demography/History.h:389-402 | a generation at the last time keeps sizes, both flow indexes and the cached backward kernels in agreement at `t + 1` |
| Histories.GenerationObeysLaw | modules/demography/History.h:389-402 | a generation over the definition space at the last time obeys the law of the generation |
| Histories.GenerationFlowsLaw | modules/demography/History.h:389-402 | the flow of that generation from `x` to `y` is the number of `x`'s emigrants sent to `y` when `x` has a positive size, and 0 otherwise |
| Histories.GenerationSizesLaw | modules/demography/History.h:389-402 | the sizes at `t + 1` are the counts of the arrivals from the demes of positive size at `t` |
| Histories.GenerationExtends | modules/demography/History.h:389-402 | a generation at `t` changes no size up to `t` and no flow before `t` |
| Histories.GenerationEffect | modules/demography/History.h:389-407 | all of the above at once, with extinction exactly when no deme of the definition space reproduces |
| Histories.CacheStep | modules/demography/History.h:274-277 | caching the backward distribution that the flows into `x` at `t` define keeps the databases in agreement |
| Histories.AgreeLater | modules/demography/History.h:379-384 | databases that agree at `t` still agree at any later time |
| Histories.WriteOver | modules/demography/History.h:399 | two writes of a size at the same place: the second wins |
| Histories.History.constructor | modules/demography/History.h:203-210 | `BaseHistory(x, t, N)` sets size `N` at `x` at `t`, stores no flow and no kernel, and starts the times at `t`, consistently |
| Histories.History.FirstTime | modules/demography/History.h:248-251 | `first_time()` is one of the recorded times, and with consecutive times the earliest of them |
| Histories.History.LastTime | modules/demography/History.h:256-259 | `last_time()` is one of the recorded times, and with consecutive times the latest, `|times| - 1` steps after the first |
| Histories.ConsecutiveOffsets | modules/demography/History.h:248-259 | consecutive times run from the first time, one step per recorded time |
| Histories.History.MakeBackwardDistribution | modules/demography/History.h:293-309 | `make_backward_distribution(x, t)` returns a distribution whose support is exactly the origins of the flux into `x` at `t`, each weighted by its flow |
| Histories.History.BackwardKernel | modules/demography/History.h:269-279 | `backward_kernel(x, t, gen)` demands a flux into `x` at `t - 1`; when no distribution is cached for `x` at `t - 1` it caches the backward distribution of that flux through `set` as written, which evicts the others cached at `t - 1`; it draws from the cached distribution and leaves the cache as it was when one was already there |
| Histories.CacheReplaceStep | modules/demography/History.h:274-277 | caching the backward distribution of a flux through `set` as written keeps the cached kernels in agreement with the flows |
| Histories.History.MoveOne | modules/demography/History.h:397-399 | one individual moving from `x` to `y` adds a unit flow and one individual at `y` at `t + 1`, keeping the flow indexes consistent |
| Histories.History.DisperseFrom | modules/demography/History.h:393-401 | the inner loop of `expand` disperses the `n` individuals of `x` one by one, each with a unit flow and one more individual at its destination |
| Histories.History.DisperseAll | modules/demography/History.h:389-402 | the loop over the definition space disperses every deme's offspring and returns the landscape count, their total |
| Histories.History.Generation | modules/demography/History.h:381-407 | one generation appends `t + 1` to the times; it fails with `out_of_range` exactly when no sizes exist at `t`, with `domain_error` exactly when no deme reproduced, and otherwise obeys the law of the generation; nothing up to `t` changes |
| Histories.History.Reproduce | modules/demography/History.h:386-407 | the body of a generation over the definition space keeps the databases in agreement, fails exactly on extinction, and otherwise obeys the law |
| Histories.History.Expand | modules/demography/History.h:376-410 | `expand(n, ...)` appends one time per completed generation, stops at the first failure, keeps the earlier history, and when all `n` generations pass, each one obeys its law |
| Histories.ArrivalHasOrigin | modules/demography/History.h:389-399 | every arrival of a generation is an emigrant of one of the demes that reproduced |
| Histories.PopulatedHasFlux | modules/demography/History.h:389-399 | a deme populated at `t + 1` received a flow at `t`, so the flux into it is defined and not empty: the assertion of `backward_kernel` holds there |
| Histories.BackwardOriginsPopulated | modules/demography/History.h:389-399 | every origin of the flux into `x` at `t` is a deme of positive size at `t` |
| PopulationSizes.WriteThenRead | include/quetzal/demography/PopulationSize.h:49-53 | after a write the entry at `(x, t)` is defined and holds the value; every other entry keeps both its definedness and its value |
| PopulationSizes.WriteSupport | include/quetzal/demography/PopulationSize.h:82-90 | after a write at `t`, `x` is in the definition space at `t` exactly when the size is positive, and the other demes are unaffected |
| PopulationSizes.PopulationSize.constructor | include/quetzal/demography/PopulationSize.h:45 | a new table defines no entry |
| PopulationSizes.PopulationSize.IsDefined | include/quetzal/demography/PopulationSize.h:95-100 | `is_defined(x, t)` holds exactly when a layer for `t` exists with an entry for `x`; the test that the table is not empty adds nothing, and an empty table defines no entry |
| PopulationSizes.PopulationSize.Set | include/quetzal/demography/PopulationSize.h:49-53 | `set` demands a non-negative size and leaves the table written at `(x, t)`, the entry defined and equal to it |
| PopulationSizes.PopulationSize.Get | include/quetzal/demography/PopulationSize.h:57-100 | `get` and the const call operator demand a defined entry and return the stored size |
| PopulationSizes.PopulationSize.At | include/quetzal/demography/PopulationSize.h:75-78 | the mutable call operator returns the stored size, or 0 for an absent entry which it creates; either way the entry is then defined |
| PopulationSizes.PopulationSize.AssignAt | include/quetzal/demography/PopulationSize.h:75-78 | assigning through the mutable call operator writes any value, negative included, since it skips the check of `set` |
| PopulationSizes.PopulationSize.DefinitionSpace | include/quetzal/demography/PopulationSize.h:82-90 | `definition_space(t)` fails with `out_of_range` exactly when no layer exists at `t`; otherwise it lists each deme of positive size once and no other |
| PopulationSizes.PopSizeScenario | include/quetzal/demography/PopulationSize.h:49-100 | an empty table defines nothing; one write of 12 at (Paris, 2017) defines that entry alone in the definition space |
| Flows.SetKeepsConsistent | src/include/quetzal/demography/Flow.h:81-84 | writing the same value in the forward index under `(t, from, to)` and in the reverse index under `(to, t)`/`from` keeps the two indexes consistent |
| Flows.ConsistentGet | src/include/quetzal/demography/Flow.h:67-105 | in consistent indexes the forward flow and the reverse entry agree for every triple, an absent flow reading as 0 on both sides |
| Flows.Flow.constructor | src/include/quetzal/demography/Flow.h:58 | a new flow table stores nothing and its indexes are consistent |
| Flows.Flow.FluxToIsDefined | src/include/quetzal/demography/Flow.h:115-119 | in consistent indexes, `flux_to_is_defined(to, t)` holds as soon as some flow into `to` at `t` is stored |
| Flows.Flow.FluxFromTo | src/include/quetzal/demography/Flow.h:67-71 | `flux_from_to` demands a stored flow; the value it returns is the one the reverse index holds for `from` |
| Flows.Flow.SetFluxFromTo | src/include/quetzal/demography/Flow.h:81-84 | `set_flux_from_to` overwrites the flow in both indexes and keeps them consistent |
| Flows.Flow.AddToFluxFromTo | src/include/quetzal/demography/Flow.h:87-90 | `add_to_flux_from_to` adds to the stored flow, an absent one counting as 0, in both indexes, and keeps them consistent |
| Flows.Flow.FluxTo | src/include/quetzal/demography/Flow.h:101-119 | `flux_to(x, t)` demands a defined entry and returns exactly the origins with a stored flow into `x` at `t`, each with that flow |
| TransitionKernels.TransitionKernel.constructor | include/quetzal/random/TransitionKernel.h:58 | a new kernel has no distribution |
| TransitionKernels.TransitionKernel.HasDistribution | include/quetzal/random/TransitionKernel.h:159-161 | `has_distribution(x)` holds exactly when removing `x` would change the stored distributions |
| TransitionKernels.TransitionKernel.Of | include/quetzal/random/TransitionKernel.h:69-84 | the kernel built from `(x, d)` has the distribution `d` at `x` and none elsewhere |
| TransitionKernels.TransitionKernel.Set | include/quetzal/random/TransitionKernel.h:131-148 | `set(x, d)` gives `x` the distribution `d` and changes no other state's |
| TransitionKernels.TransitionKernel.Sample | include/quetzal/random/TransitionKernel.h:159-176 | the call operator demands a distribution at `x` and returns a draw from it |
| TransitionKernels.ReplaceLayerMeaning | include/quetzal/random/TransitionKernel.h:292-310 | the time-dependent `set(x, t, d)` as written leaves `x` the only state with a distribution at `t`, other times untouched |
| TransitionKernels.InsertInLayerMeaning | include/quetzal/random/TransitionKernel.h:282-295 | the documented update adds `(x, t)` with `d` and keeps every other defined pair with its distribution |
| TransitionKernels.SetForgetsEarlierState | include/quetzal/random/TransitionKernel.h:292-295 | two calls to `set` at the same time as written lose the first state's distribution, which the documented update keeps |
| TransitionKernels.TimedTransitionKernel.constructor | include/quetzal/random/TransitionKernel.h:217 | a new time-dependent kernel has no distribution |
| TransitionKernels.TimedTransitionKernel.HasDistribution | include/quetzal/random/TransitionKernel.h:322-330 | `has_distribution(x, t)` holds exactly when a layer exists at `t` and removing `x` would change it; an empty kernel has no distribution |
| TransitionKernels.TimedTransitionKernel.Of | include/quetzal/random/TransitionKernel.h:229-244 | the kernel built from `(x, t, d)` has a distribution at `(x, t)` and nowhere else |
| TransitionKernels.TimedTransitionKernel.SetAsWritten | include/quetzal/random/TransitionKernel.h:292-310 | `set(x, t, d)` as written replaces the whole layer at `t` by the kernel of `x` alone |
| TransitionKernels.TimedTransitionKernel.Set | include/quetzal/random/TransitionKernel.h:282-295 | the documented `set(x, t, d)` inserts `(x, t)` and keeps every other pair |
| TransitionKernels.TimedTransitionKernel.Sample | include/quetzal/random/TransitionKernel.h:322-346 | the call operator demands a distribution at `(x, t)` and returns a draw from it |
| SpatialGeneticSample.CopiesOfMeaning | modules/genetics/SpatialGeneticSample.h:104-117 | the counts of one location hold exactly the states above 0 that some copy carries, each with the number of copies carrying it |
| SpatialGeneticSample.SpatialGeneticSample.Default | modules/genetics/SpatialGeneticSample.h:39 | the default constructor gives an empty sample |
| SpatialGeneticSample.SpatialGeneticSample.constructor | modules/genetics/SpatialGeneticSample.h:33-37 | the constructor from a map, under `extract_loci`'s assertions (a non-empty map, no empty location, the same non-empty loci everywhere), keeps the map, its locations and those loci (also lines 160-179 of the same file) |
| SpatialGeneticSample.SpatialGeneticSample.Add | modules/genetics/SpatialGeneticSample.h:41-53 | `add(x, ind)` (both argument orders) appends the individual at `x`, records `x`, and the first individual fixes the loci that later ones must have |
| SpatialGeneticSample.SpatialGeneticSample.GetSamplingPoints | modules/genetics/SpatialGeneticSample.h:86-88 | `get_sampling_points()` is exactly the locations that hold individuals |
| SpatialGeneticSample.SpatialGeneticSample.IndividualsAt | modules/genetics/SpatialGeneticSample.h:94-96 | `individuals_at(x)` gives the individuals at `x`, and `map::at` throws `out_of_range` exactly for an unsampled location |
| SpatialGeneticSample.SpatialGeneticSample.Size | modules/genetics/SpatialGeneticSample.h:60-66 | `size()` is the number of individuals over all locations |
| SpatialGeneticSample.SpatialGeneticSample.SizeAt | modules/genetics/SpatialGeneticSample.h:55-58 | `size(x)` demands a sampled location (the source asserts it); its count is what `size()` loses once `x` is left out, so it never exceeds `size()` |
| SpatialGeneticSample.SpatialGeneticSample.NbGeneCopiesDiscardingNA | modules/genetics/SpatialGeneticSample.h:99-120 | `nb_gene_copies_discarding_NA` throws `out_of_range` exactly when some individual lacks the locus, and otherwise maps each location with a present state to the copies of each state above 0 |
| SpatialGeneticSample.SpatialGeneticSample.AllelicRichness | modules/genetics/SpatialGeneticSample.h:122-131 | `allelic_richness` is the number of distinct non-missing states present anywhere in the sample |
| SpatialGeneticSample.TotalRemove | modules/genetics/SpatialGeneticSample.h:60-66 | the total of individuals does not depend on the location counted first |
| SpatialGeneticSample.CountAt | modules/genetics/SpatialGeneticSample.h:104-117 | the inner loop over one location's individuals computes that location's counts, or fails when an individual lacks the locus |
| SpatialGeneticSample.StatesOf | modules/genetics/SpatialGeneticSample.h:123-129 | the nested loops collect the union of the states of every location |
| SpatialGeneticSample.StatesArePresent | modules/genetics/SpatialGeneticSample.h:122-131 | the states collected from the counts are exactly the present states |
| SpatialGeneticSample.PresentStatesMeaning | modules/genetics/SpatialGeneticSample.h:108-131 | a state is present iff it is above 0 and some individual somewhere carries it |
| DiploidIndividual.DiploidIndividual.Default | src/include/quetzal/genetics/DiploidIndividual.h:28 | the default constructor genotypes no locus |
| DiploidIndividual.DiploidIndividual.constructor | src/include/quetzal/genetics/DiploidIndividual.h:30-36 | each one-locus constructor, in any of the four argument orders, stores exactly that locus and its pair |
| DiploidIndividual.DiploidIndividual.Add | src/include/quetzal/genetics/DiploidIndividual.h:38-51 | `add` (all three overloads) sets or overwrites that locus and returns the object itself |
| DiploidIndividual.DiploidIndividual.NGenotypedLoci | src/include/quetzal/genetics/DiploidIndividual.h:53-55 | `nGenotypedLoci` is the number of loci stored |
| DiploidIndividual.DiploidIndividual.Alleles | src/include/quetzal/genetics/DiploidIndividual.h:57-59 | `alleles(locus)` is the stored pair, and `map::at` throws `out_of_range` exactly for an absent locus |
| DiploidIndividual.DiploidIndividual.Loci | src/include/quetzal/genetics/DiploidIndividual.h:61-67 | `loci()` collects exactly the names of the stored loci |
| DiploidIndividual.AddCount | src/include/quetzal/genetics/DiploidIndividual.h:38-55 | genotyping a new locus adds one to the count and overwriting one keeps it |
| DiploidIndividual.AddKeepsOthers | src/include/quetzal/genetics/DiploidIndividual.h:38-41 | `add` keeps every other locus and its pair |
| DiploidIndividual.ConstructedHasOneLocus | src/include/quetzal/genetics/DiploidIndividual.h:35-59 | a constructed individual has one genotyped locus, whose alleles are the given pair |
| ReferenceTable.MapData | include/quetzal/abc/ReferenceTable.h:88-105 | the transformed table keeps the parameters in order and transforms each entry's data |
| ReferenceTable.ReferenceTable.constructor | include/quetzal/abc/ReferenceTable.h:56-59 | a new table is empty |
| ReferenceTable.ReferenceTable.Size | include/quetzal/abc/ReferenceTable.h:70 | `size()` is the number of entries, 0 exactly when the table is empty |
| ReferenceTable.ReferenceTable.PushBack | include/quetzal/abc/ReferenceTable.h:74-80 | `push_back` (copy and move alike) appends the entry at the end, growing `size()` by one |
| ReferenceTable.ReferenceTable.EmplaceBack | include/quetzal/abc/ReferenceTable.h:82-85 | `emplace_back(param, data)` appends the entry built from its two parts |
| ReferenceTable.ReferenceTable.ComputeSummaryStatistics | include/quetzal/abc/ReferenceTable.h:87-95 | `compute_summary_statistics(eta)` returns a new table of `(param, eta(data))` and leaves this one unchanged |
| ReferenceTable.ReferenceTable.ComputeDistanceTo | include/quetzal/abc/ReferenceTable.h:97-105 | `compute_distance_to(obs, rho)` returns a new table of `(param, rho(obs, data))` and leaves this one unchanged |
| ReferenceTable.MapDataKeepsParameters | include/quetzal/abc/ReferenceTable.h:91-93 | both transforms keep the size and the parameters in order |
| ReferenceTable.MapDataCompose | include/quetzal/abc/ReferenceTable.h:87-105 | transforming twice is transforming once by the composition |
| Extent.Extent.constructor | src/include/quetzal/geography/Extent.hpp:44-49 | the constructor stores the four bounds as given, latitudes first |
| Extent.Extent.Equals | src/include/quetzal/geography/Extent.hpp:59-69 | `==` holds exactly when the four bounds agree, so an extent equals itself |
| Extent.Extent.NotEquals | src/include/quetzal/geography/Extent.hpp:75-78 | `!=` is the negation of `==` read either way round, and an extent never differs from itself |
| Extent.Extent.SetLatMin | src/include/quetzal/geography/Extent.hpp:103-107 | `lat_min(val)` changes that bound only and returns the object itself |
| Extent.Extent.SetLatMax | src/include/quetzal/geography/Extent.hpp:110-114 | `lat_max(val)` changes that bound only and returns the object itself |
| Extent.Extent.SetLonMin | src/include/quetzal/geography/Extent.hpp:117-121 | `lon_min(val)` changes that bound only and returns the object itself |
| Extent.Extent.SetLonMax | src/include/quetzal/geography/Extent.hpp:124-128 | `lon_max(val)` changes that bound only and returns the object itself |
| Extent.EqualsIsEquivalence | src/include/quetzal/geography/Extent.hpp:59-78 | `==` (all four bounds equal) is reflexive, symmetric and transitive, and `!=` is exactly its negation |
| Extent.ChangedCopyDiffers | src/include/quetzal/geography/Extent.hpp:59-107 | a copy whose latitude minimum is set to another value compares unequal to the original |
| Resolution.Resolution.constructor | src/include/quetzal/geography/resolution.hpp:29-31 | the constructor stores both resolutions as given |
| Resolution.Resolution.Equals | src/include/quetzal/geography/resolution.hpp:67-72 | `==` holds exactly when both resolutions agree, so a resolution equals itself |
| Resolution.Resolution.NotEquals | src/include/quetzal/geography/resolution.hpp:77-80 | `!=` is the negation of `==` read either way round, and a resolution never differs from itself |
| Resolution.Resolution.SetLat | src/include/quetzal/geography/resolution.hpp:49-53 | `lat(value)` changes the latitude only and returns the object itself |
| Resolution.Resolution.SetLon | src/include/quetzal/geography/resolution.hpp:58-62 | `lon(value)` changes the longitude only and returns the object itself |
| Resolution.EqualsIsEquivalence | src/include/quetzal/geography/resolution.hpp:67-80 | `==` is reflexive, symmetric and transitive, and `!=` is exactly its negation |
| Resolution.ChangedCopyDiffers | src/include/quetzal/geography/resolution.hpp:58-72 | a copy whose longitude is set to another value compares unequal to the original |
| PointWithId.IndexOfPoint | include/quetzal/utils/PointWithId.h:22-28 | `getIndexOfPointInVector`, for a point that occurs (its assertion), is the index of its first occurrence |
| PointWithId.FromPoint | include/quetzal/utils/PointWithId.h:55-57 | the constructor from a point designates that point, at its first index |
| PointWithId.PointWithId.GetPoint | include/quetzal/utils/PointWithId.h:62-65 | `getPoint()` returns one of the vector's points |
| PointWithId.PointWithId.GetId | include/quetzal/utils/PointWithId.h:70-73 | `getId()` is an index of the vector at which the designated point is stored |
| PointWithId.Same | include/quetzal/utils/PointWithId.h:78-81 | `==` compares the designated points: an object equals itself, and the point each designates occurs in the other's vector |
| PointWithId.Different | include/quetzal/utils/PointWithId.h:86-89 | `!=` is the negation of `==` read either way round, and an object never differs from itself |
| PointWithId.FromIndexRoundTrip | include/quetzal/utils/PointWithId.h:46-73 | constructed from an index, the object gives back that index and the point stored there |
| PointWithId.IndexPointRoundTrip | include/quetzal/utils/PointWithId.h:55-73 | point to index and back gives the point; the index recovered is the first occurrence, equal to the original one exactly when no earlier copy exists |
| PointWithId.DuplicatesCompareEqual | include/quetzal/utils/PointWithId.h:78-81 | two indices of the same repeated point compare equal although their ids differ |
| PointWithId.SameIsEquivalence | include/quetzal/utils/PointWithId.h:78-89 | `==` (equal points) is an equivalence and `!=` is its negation |
| Raster.ToColRow | src/include/quetzal/geography/raster.hpp:341-347 | `to_colrow(x)` under its `row < height` assertion gives the cell whose row-major descriptor is `x`, using C++ truncating division |
| Raster.ToRowCol | src/include/quetzal/geography/raster.hpp:352-356 | `to_rowcol(x)` is the same cell as `to_colrow(x)` with the fields swapped |
| Raster.ToColRowInGrid | src/include/quetzal/geography/raster.hpp:341-347 | a descriptor of one of the `width * height` cells passes the assertion and gives a column and a row inside the grid |
| Raster.ToDescriptorAsWritten | src/include/quetzal/geography/raster.hpp:291-296 | as written, `to_descriptor` throws `out_of_range` exactly for cells outside the grid, and otherwise returns `col * width + col` |
| Raster.ToDescriptorAsWrittenIsNotInverse | src/include/quetzal/geography/raster.hpp:295 | in a 2 x 2 grid, descriptor 2 is column 0 of row 1, yet the descriptor written for that cell is 0 |
| Raster.ToDescriptor | src/include/quetzal/geography/raster.hpp:286-296 | the corrected `to_descriptor` throws `out_of_range` exactly outside the grid |
| Raster.DescriptorRoundTrip | src/include/quetzal/geography/raster.hpp:291-347 | descriptor to cell and back gives the descriptor again |
| Raster.ColRowRoundTrip | src/include/quetzal/geography/raster.hpp:291-347 | cell to descriptor and back gives the cell again, and the descriptor is one of the grid's |
| Common.Range | src/include/quetzal/geography/raster.hpp:233-236 | `iota(first, last)` is the integers of `[first, last)` in order |
| Raster.LocationsAsWrittenMissLastCell | src/include/quetzal/geography/raster.hpp:233-236 | as written, `locations()` stops at `width * height - 1` exclusive, so the last cell of every non-empty grid is missing |
| Raster.LocationsAreCells | src/include/quetzal/geography/raster.hpp:232-236 | the corrected locations are exactly the descriptors whose column and row lie in the grid |
| Raster.BandTimesInExtent | src/include/quetzal/geography/raster.hpp:434-437 | with increasing times, the time of every band lies in the temporal extent `[front, back]` |
| Raster.CheckTimesEqualsDepth | src/include/quetzal/geography/raster.hpp:602-613 | `check_times_equals_depth` throws `runtime_error` exactly when the number of times differs from the depth |
| Raster.TimesAsWrittenMissLastBand | src/include/quetzal/geography/raster.hpp:238-242 | as written, `times()` stops at `depth() - 1` exclusive, so it lists `depth - 1` descriptors and misses the last band |
| Raster.TimesAreBands | src/include/quetzal/geography/raster.hpp:238-242 | the corrected times are exactly the band indices `0 .. depth - 1` |
| BoundPolicy.UndirectedKeySymmetric | src/include/quetzal/geography/graph/graph.hpp:374-377 | in an undirected graph the edge `(u, v)` and the edge `(v, u)` are stored under one key, which is one of the two orders |
| BoundPolicy.Graph.constructor | src/include/quetzal/geography/graph/graph.hpp:361-364 | `graph(n)` has `n` vertices and no edge |
| BoundPolicy.Graph.AddVertex | src/include/quetzal/geography/graph/graph.hpp:164-167 | the new vertex is the next descriptor, the count grows by one and the edges are unchanged |
| BoundPolicy.Graph.AddEdge | src/include/quetzal/geography/graph/graph.hpp:374-377 | the edge set gains exactly the edge `(u, v)` (stored once), and the vertex set grows to hold both ends |
| BoundPolicy.RowColAreDivMod | src/include/quetzal/geography/graph/detail/bound_policy.hpp:68-91 | the row and column of vertex `s` are the quotient and remainder of `s` by the width |
| BoundPolicy.CellOfVertex | src/include/quetzal/geography/graph/detail/bound_policy.hpp:68-91 | every vertex is the cell of its row and column, and lies in the grid exactly when its row does |
| BoundPolicy.VertexOfCell | src/include/quetzal/geography/graph/detail/bound_policy.hpp:68-91 | the cell `(row, col)` has that row and that column |
| BoundPolicy.RowTests | src/include/quetzal/geography/graph/detail/bound_policy.hpp:73-88 | `s < width` tests the top row, `s >= (height - 1) * width` the bottom row and `(s + 1) % width == 0` the right column, each in both directions |
| BoundPolicy.Mirror | src/include/quetzal/geography/graph/detail/bound_policy.hpp:26-30 | `mirror` leaves the graph unchanged |
| BoundPolicy.Sink | src/include/quetzal/geography/graph/detail/bound_policy.hpp:42-52 | `sink` adds the vertex `width * height` when it is missing and exactly one edge from `s` to it |
| BoundPolicy.TorusTests | src/include/quetzal/geography/graph/detail/bound_policy.hpp:70-91 | the partner index is chosen by the top, bottom, left and right tests in that order, and is 0 when none holds |
| BoundPolicy.Torus | src/include/quetzal/geography/graph/detail/bound_policy.hpp:64-93 | `torus` adds exactly one edge, from `s` to its partner index |
| BoundPolicy.TorusPartnerInGrid | src/include/quetzal/geography/graph/detail/bound_policy.hpp:70-91 | the partner of a grid cell is a grid cell |
| BoundPolicy.TorusInvolution | src/include/quetzal/geography/graph/detail/bound_policy.hpp:72-91 | on a grid of at least 2 x 2 cells, the partner of a border cell's partner is the cell itself, so opposite borders are paired |
| BoundPolicy.TorusInteriorLinksToZero | src/include/quetzal/geography/graph/detail/bound_policy.hpp:70-92 | a cell off the border gets an edge to vertex 0, the initial value of the partner index, and is not vertex 0 itself |
| Vicinity.ApplyPolicy | src/include/quetzal/geography/graph/detail/vicinity.hpp:69 | the bound policy handed to each cell: `mirror` adds nothing, `sink` one edge to vertex `width * height`, `torus` one edge to the partner index (also lines 230 of the same file) |
| Vicinity.Link | src/include/quetzal/geography/graph/detail/vicinity.hpp:57-65 | `connect(s, t)` adds the edge from `s` to `t`, and the reverse edge too when the graph is directed |
| Vicinity.ConnectFully | src/include/quetzal/geography/graph/detail/vicinity.hpp:25-43 | `connect_fully` adds, for every `s < t` below the vertex count, the edge `(s, t)` (and `(t, s)` when directed), and no vertex |
| Vicinity.FullRowsMembers | src/include/quetzal/geography/graph/detail/vicinity.hpp:34-41 | an edge of `connect_fully` joins two distinct vertices below the count, in both orders only when directed |
| Vicinity.FullRowsSize | src/include/quetzal/geography/graph/detail/vicinity.hpp:34-41 | after `m` outer rounds there is one edge per orientation for each pair `s < t < n` with `s < m` |
| Vicinity.CompleteGraphSize | src/include/quetzal/geography/graph/detail/vicinity.hpp:34-41 | the complete graph on `n` vertices gets `n(n - 1)/2` undirected or `n(n - 1)` directed edges |
| Vicinity.Neighbours4Count | src/include/quetzal/geography/graph/detail/vicinity.hpp:67-134 | each 4-neighbour helper connects 2 neighbours at a corner, 3 on a border and 4 inside |
| Vicinity.Neighbours8Count | src/include/quetzal/geography/graph/detail/vicinity.hpp:228-311 | each 8-neighbour helper connects 3 neighbours at a corner, 5 on a border and 8 inside |
| Vicinity.OffsetsExact | src/include/quetzal/geography/graph/detail/vicinity.hpp:67-134 | on a grid of at least 2 x 2 cells, the helper chosen by the row/column classification lists a step exactly when the cell it leads to exists (also lines 150-196 of the same file) |
| Vicinity.StepTarget | src/include/quetzal/geography/graph/detail/vicinity.hpp:70-133 | a step that stays on the grid leads to the cell `s + dr * width + dc`, in the expected row and column |
| Vicinity.Classify | src/include/quetzal/geography/graph/detail/vicinity.hpp:150-196 | the row/column tests of the wiring loop: the top cases are exactly row 0, the bottom cases a later row equal to `height - 1`, the left cases column 0, the right cases a later column equal to `width - 1`, and the interior what none of these tests catches |
| Vicinity.Offsets4 | src/include/quetzal/geography/graph/detail/vicinity.hpp:67-134 | each 4-neighbour helper connects 2 cells at a corner, 4 in the interior and 3 on a border, the first of them `s - 1` or `s + 1` |
| Vicinity.TargetsAreNeighbours | src/include/quetzal/geography/graph/detail/vicinity.hpp:67-134 | every vertex a helper connects is on the grid and one rook (or king) step away (also lines 228-311 of the same file) |
| Vicinity.BottomBorderLeavesGrid | src/include/quetzal/geography/graph/detail/vicinity.hpp:270-278 | as written, the 8-neighbour bottom-border helper of a 3 x 2 grid connects cell 4 to vertex 8, beyond the 6 cells |
| Vicinity.ThinGridsLeaveGrid | src/include/quetzal/geography/graph/detail/vicinity.hpp:67-92 | on a 2 x 1 grid the top-left corner links `s + width`, and on a 1 x 2 grid the bottom-left corner links `s + 1`: both are vertex 2, off the grid's two cells |
| Vicinity.ConnectCell | src/include/quetzal/geography/graph/detail/vicinity.hpp:67-134 | a border helper applies the bound policy and an interior cell gets none; then exactly the connections to its case's neighbours are added (also lines 228-311 of the same file); with `eight`, the bottom border uses the corrected upper diagonals (corrected bottom border, see Findings) |
| Vicinity.LinkTargets | src/include/quetzal/geography/graph/detail/vicinity.hpp:127-134 | the `connect` calls of a helper add exactly one link from `s` to each offset's target, in order, and leave the vertex count at `width * height` |
| Vicinity.ConnectNeighbors | src/include/quetzal/geography/graph/detail/vicinity.hpp:138-198 | `connect_4_neighbors` / `connect_8_neighbors` hand every vertex, classified by row and column, to its case's helper, the interior one without the bound policy: the edges are the union of the cells' edges and no vertex is added (also lines 315-374 of the same file); with `eight`, the bottom border uses the corrected upper diagonals (corrected bottom border, see Findings) |
| Vicinity.MirrorCellEdges | src/include/quetzal/geography/graph/detail/vicinity.hpp:67-134 | under `mirror`, the helper of cell `s` adds exactly the step edges with `s` as an end (both directions of the equivalence) (also lines 228-311 of the same file) |
| Vicinity.MirrorWiringIsAdjacency | src/include/quetzal/geography/graph/detail/vicinity.hpp:138-198 | under `mirror`, the whole wiring is exactly the grid's rook (4) or king (8) adjacency (also lines 315-374 of the same file); with `eight`, the bottom border uses the corrected upper diagonals (corrected bottom border, see Findings) |
| Vicinity.TorusWiring | src/include/quetzal/geography/graph/detail/vicinity.hpp:138-198 | under `torus`, the wiring is the mirror wiring plus one torus link per border cell; interior cells get none (also lines 315-374 of the same file); with `eight`, the bottom border uses the corrected upper diagonals (corrected bottom border, see Findings) |
| Vicinity.TorusCellEdges | src/include/quetzal/geography/graph/detail/vicinity.hpp:67-134 | one cell's helper under `torus` adds its mirror edges plus, on a border cell only, the link to its torus partner |
| Vicinity.TorusLinksOnGrid | src/include/quetzal/geography/graph/detail/bound_policy.hpp:64-93 | every torus link joins two grid cells, so the torus wiring adds no vertex |
| Vicinity.TorusLinksFromBorder | src/include/quetzal/geography/graph/detail/vicinity.hpp:150-196 | an edge is a torus link of the first `k` cells exactly when it joins a border cell below `k` to its torus partner (both directions) |
| ForwardBackward.TestSampleConsistency | src/include/quetzal/simulator/ForwardBackwardSpatiallyExplicit.hpp:273-286 | `test_sample_consistency` raises `logic_error` for an empty sample and for a single deme with fewer than two copies, and passes every sample of two or more demes |
| ForwardBackward.SingletonTotal | src/include/quetzal/simulator/ForwardBackwardSpatiallyExplicit.hpp:279-285 | a sample with one deme totals that deme's count, the copy count the single-deme test reads |
| ForwardBackward.OneCopyOverTwoDemesPasses | src/include/quetzal/simulator/ForwardBackwardSpatiallyExplicit.hpp:273-286 | only a single-deme sample has its size checked: one copy spread over two demes passes |
| ForwardBackward.CoalesceStep | src/include/quetzal/simulator/ForwardBackwardSpatiallyExplicit.hpp:306-324 | one more position coalesced extends the positions done; the trees at the others stay |
| ForwardBackward.Replaced | src/include/quetzal/simulator/ForwardBackwardSpatiallyExplicit.hpp:314-323 | erasing the trees at `x` and inserting the merger's survivors coalesces `x` alone, keeps the set of positions and adds no entry |
| ForwardBackward.Untouched | src/include/quetzal/simulator/ForwardBackwardSpatiallyExplicit.hpp:314 | a position with fewer than two trees is left as it is |
| ForwardBackward.Advance | src/include/quetzal/simulator/ForwardBackwardSpatiallyExplicit.hpp:306-324 | one iteration of the loop of `may_coalesce_colocated` keeps its invariant and shrinks the positions left |
| ForwardBackward.CoalescedWhole | src/include/quetzal/simulator/ForwardBackwardSpatiallyExplicit.hpp:306-324 | once every position is done, each holds its coalesced trees, the positions are the same, and a non-empty forest stays non-empty |
| ForwardBackward.NonEmptyKeys | src/include/quetzal/simulator/ForwardBackwardSpatiallyExplicit.hpp:151 | a forest is empty exactly when it has no position |
| ForwardBackward.SameKeys | src/include/quetzal/simulator/ForwardBackwardSpatiallyExplicit.hpp:306-324 | two forests with the same positive counts per position have the same positions |
| ForwardBackward.MigratedKeepsTrees | src/include/quetzal/simulator/ForwardBackwardSpatiallyExplicit.hpp:288-299 | the backward migration keeps the number of lineages and every tree, in order |
| ForwardBackward.MigratedPopulated | src/include/quetzal/simulator/ForwardBackwardSpatiallyExplicit.hpp:288-299 | when each lineage is moved by a draw from the backward distribution of the flux into its deme, every lineage lands on an origin of that flux, and every deme it lands on had a positive size at `t - 1` |
| ForwardBackward.Simulator.constructor | src/include/quetzal/simulator/ForwardBackwardSpatiallyExplicit.hpp:75-78 | the simulator starts a history with `N_0` individuals in `x_0` at time 0 over `nb_generations` |
| ForwardBackward.Simulator.PopSize | src/include/quetzal/simulator/ForwardBackwardSpatiallyExplicit.hpp:93-96 | the functor `N(x, t)` demands a size defined at `(x, t)`, as `get` asserts, and returns it; it is at least 1 exactly when `x` is in the distribution area at `t` |
| ForwardBackward.Simulator.SimulateForwardDemography | src/include/quetzal/simulator/ForwardBackwardSpatiallyExplicit.hpp:110-114 | the forward simulation reaches the last generation and each generation obeys the law of `expand` |
| ForwardBackward.Simulator.DistributionArea | src/include/quetzal/simulator/ForwardBackwardSpatiallyExplicit.hpp:82-86 | `distribution_area(t)` demands `t < nb_generations` and lists exactly the demes of positive size at `t`, failing when no sizes exist at `t` |
| ForwardBackward.Simulator.CheckConsistency | src/include/quetzal/simulator/ForwardBackwardSpatiallyExplicit.hpp:261-271 | `check_consistency` raises `domain_error` exactly when some position holds more trees than individuals at the last generation |
| ForwardBackward.Simulator.MigrateBackward | src/include/quetzal/simulator/ForwardBackwardSpatiallyExplicit.hpp:288-299 | `migrate_backward` demands a flux into every position at `t - 1`; the `i`-th lineage moves to the deme the generator draws from the backward kernel of its position, and the number of trees and the trees themselves are kept |
| ForwardBackward.MigratedByStep | src/include/quetzal/simulator/ForwardBackwardSpatiallyExplicit.hpp:288-299 | one more lineage moved to a deme drawn from the backward kernel of its position, with its tree kept, extends a migration of the lineages before it to one of the first `i + 1` |
| ForwardBackward.Simulator.MayCoalesceColocated | src/include/quetzal/simulator/ForwardBackwardSpatiallyExplicit.hpp:301-325 | `may_coalesce_colocated` demands positive sizes at every position, replaces the trees of each position holding two or more by the merger's survivors, keeps the others and the positions, and never grows the forest |
| ForwardBackward.Simulator.CoalesceAt | src/include/quetzal/simulator/ForwardBackwardSpatiallyExplicit.hpp:308-323 | the loop body for `x` coalesces `x` alone and keeps the positions |
| ForwardBackward.Simulator.GoBack | src/include/quetzal/simulator/ForwardBackwardSpatiallyExplicit.hpp:153-157 | one generation back (coalescing colocated lineages, then migrating): starting from positions populated at `t`, every position is populated at `t - 1`, the forest never grows and a non-empty forest stays non-empty |
| ForwardBackward.Simulator.CoalesceAlongSpatialHistory | src/include/quetzal/simulator/ForwardBackwardSpatiallyExplicit.hpp:146-159 | `coalesce_along_spatial_history` fails with `domain_error` exactly when the history cannot hold the sample, leaving the forest as it was; otherwise `t` stays between 0 and `nb_generations` and the loop stops at `t = 0` or with at most one tree; the forest never grows and never empties, and every lineage sits in a populated deme |
| WrightFisher.WaitingTimeAssertFailsAtCapacity | include/quetzal/simulator/DiscreteTimeWrightFisher.h:93-138 | with as many lineages as gene copies (`k = N = 2`), `coalesce` passes its own check `k <= N` but `sample_waiting_time`'s `N > k` fails, although the geometric parameter is well defined there |
| WrightFisher.Countdown | include/quetzal/simulator/DiscreteTimeWrightFisher.h:134-141 | the lineage counts at which waiting times are sampled run from `k` down to `lo + 1`, one per merge |
| WrightFisher.CountdownStep | include/quetzal/simulator/DiscreteTimeWrightFisher.h:137-141 | one more binary merge appends the next lineage count to the countdown |
| WrightFisher.BallDraws | include/quetzal/simulator/DiscreteTimeWrightFisher.h:125-132 | the urn of each of the `k` lineages is the generator's draw for it |
| WrightFisher.BinaryMerges | include/quetzal/simulator/DiscreteTimeWrightFisher.h:134-142 | with `k <= N` lineages, `k - 1` binary merges are made, each after a waiting time sampled for the current count, every one of those in the range where the waiting time is defined |
| WrightFisher.BinaryMergesSum | include/quetzal/simulator/DiscreteTimeWrightFisher.h:134-142 | with `0` as a new tree and `+` as branch, the front tree ends holding the total of the first `k`, and the rest of the vector is untouched |
| WrightFisher.Coalesce | include/quetzal/simulator/DiscreteTimeWrightFisher.h:121-143 | on two or more trees, the lineages after the optional simultaneous multiple merge number the occupied parents (when more trees than `N`) or stay all; then `k - 1` binary merges leave the root at the front |
| WrightFisher.CoalesceSum | include/quetzal/simulator/DiscreteTimeWrightFisher.h:121-143 | with `0` and `+`, the root returned carries the total of all the trees |
| WrightFisher.CoalesceForest | include/quetzal/simulator/DiscreteTimeWrightFisher.h:60-78 | coalescing a forest raises `logic_error` exactly when it is empty and returns the single tree of a one-tree forest as it is |
| WrightFisher.SingleTreeAt | include/quetzal/simulator/DiscreteTimeWrightFisher.h:70-72 | in a forest of one tree, the only position holds exactly that tree |
| WrightFisher.CoalesceForestSum | include/quetzal/simulator/DiscreteTimeWrightFisher.h:60-78 | with `0` and `+`, a non-empty forest coalesces to the total of its trees |
| WrightFisher.CoalesceFor | include/quetzal/simulator/DiscreteTimeWrightFisher.h:167-185 | the generation-bounded `coalesce` demands two trees, `g > 0` and `N >= 1`, runs between 1 and `g` generations, stopping early only when one lineage remains, and returns the vector cut to its survivors |
| WrightFisher.CoalesceForSum | include/quetzal/simulator/DiscreteTimeWrightFisher.h:167-185 | with `0` and `+`, the surviving lineages carry the total of the trees |
| WrightFisher.WaitingTimeAssertFailsInRun | include/quetzal/simulator/DiscreteTimeWrightFisher.h:93-138 | over the binary merges from `k <= N` lineages, the as-written `assert(N > k)` of `sample_waiting_time` fails at some step exactly when `k == N` and `k >= 2` |
| SamplingScheme.MaxTries | modules/utils/sampling_scheme.h:120 | the try bound `10 * sampling_size()` is computed in 32-bit unsigned arithmetic, and equals `10 n` when that does not wrap |
| SamplingScheme.Loop | modules/utils/sampling_scheme.h:118-127 | the sampling loop never lowers the tries or the successes and stops at the try bound |
| SamplingScheme.TryOnce | modules/utils/sampling_scheme.h:121-126 | one try always counts, and succeeds at most once |
| SamplingScheme.TryOnceKeeps | modules/utils/sampling_scheme.h:121-126 | a try keeps every intensity within its population size and the intensities summing to the successes |
| SamplingScheme.Finish | modules/utils/sampling_scheme.h:128-131 | an empty sample after the loop is a `logic_error`; otherwise the sample is returned |
| SamplingScheme.LoopKeeps | modules/utils/sampling_scheme.h:118-127 | the loop never gives a point more than its population size, makes at most `n` successes and at most the bound of tries, and stops only at one of them; the intensities add up to the successes |
| SamplingScheme.EmptyIffNoSuccess | modules/utils/sampling_scheme.h:128 | with positive intensities, the sample is empty exactly when no try succeeded |
| SamplingScheme.LoopKeysGrow | modules/utils/sampling_scheme.h:118-127 | the loop never removes a point from the sample, and when reading `sample[x]` inserts, the next drawn point is entered whether or not it is accepted |
| SamplingScheme.SampleAsWritten | modules/utils/sampling_scheme.h:113-132 | as written, the first try enters its point, so the `logic_error` is raised exactly when no try is made (`n == 0`, or a try bound that wraps to 0); the sample holds at most `n` individuals, all from the space, none above its population size, some possibly with intensity 0 |
| SamplingScheme.SampleOf | modules/utils/sampling_scheme.h:113-132 | with the lookup that does not insert, sampling fails with `logic_error` exactly when no point was accepted; otherwise it holds at most `n` individuals, all from the space, each with a positive intensity no greater than its population size |
| SamplingScheme.NothingAccepted | modules/utils/sampling_scheme.h:122 | where every population size is 0 nothing is accepted, yet reading `sample[x]` enters every drawn point |
| SamplingScheme.ZeroIntensityEscapesCheck | modules/utils/sampling_scheme.h:122-130 | as written, a point of population size 0 is entered with intensity 0, so a sample where nothing was accepted is returned instead of raising the `logic_error` |
| SamplingScheme.ConstrainedSampling.constructor | modules/utils/sampling_scheme.h:76-94 | the constructor demands `n > 0` and computes one weight per point of the space with `f` |
| SamplingScheme.ConstrainedSampling.Param | modules/utils/sampling_scheme.h:96 | `param()` returns a copy holding the sampling size |
| SamplingScheme.ConstrainedSampling.SetParam | modules/utils/sampling_scheme.h:98 | `param(n)` replaces the sampling size |
| SamplingScheme.ConstrainedSampling.Sample | modules/utils/sampling_scheme.h:113-132 | the call operator draws with the stored weights and returns the corrected outcome `SampleOf`, in which a rejected point is not entered; the code as written is `SampleAsWritten` |
| SamplingScheme.MakeConstrainedSampler | modules/utils/sampling_scheme.h:136-142 | `make_constrained_sampler` raises `logic_error` exactly on an empty space, and otherwise builds the sampler with one weight `f(x)` per point |
| SamplingScheme.MakeUnifConstrainedSampler | modules/utils/sampling_scheme.h:144-151 | `make_unif_constrained_sampler` does the same with every weight 1 |
| MutationKernels.StandardMute | modules/simulator/utils.h:116-124 | `standard_data::mute` flips the binary state exactly when the number of mutations is odd, so no mutation keeps it |
| MutationKernels.StandardMuteCompose | modules/simulator/utils.h:116-124 | mutating along two successive stretches equals mutating once with all their events |
| MutationKernels.DicoKeys | modules/simulator/utils.h:353 | the keys of `dico` are exactly the four nucleotides, each listing three targets |
| MutationKernels.Step | modules/simulator/utils.h:150-151 | one JC69 mutation moves a nucleotide to another nucleotide, never to itself (also lines 353 of the same file) |
| MutationKernels.StepReachesEveryOther | modules/simulator/utils.h:150-151 | the three draws reach the three other nucleotides, each exactly once (also lines 353 of the same file) |
| MutationKernels.Walk | modules/simulator/utils.h:148-152 | a sequence of mutations keeps the state a nucleotide |
| MutationKernels.WalkConcat | modules/simulator/utils.h:148-152 | mutating along two stretches is one walk over both sequences of draws |
| MutationKernels.OneMutationChanges | modules/simulator/utils.h:150-151 | a single mutation always changes the state |
| MutationKernels.JC69Mute | modules/simulator/utils.h:144-154 | `JC69::mute` demands a nucleotide, applies one drawn step per event and returns a nucleotide; zero events return the state, one event changes it |
| MutationKernels.ParamBase.constructor | modules/simulator/utils.h:172 | `param_base_class(n)` stores the sampling size `n` |
| MutationKernels.ParamBase.SamplingSize | modules/simulator/utils.h:178-181 | `sampling_size()` returns the stored size |
| MutationKernels.ParamBase.SetSamplingSize | modules/simulator/utils.h:185-188 | `sampling_size(n)` replaces it |
| MutationKernels.Bump | modules/simulator/utils.h:242 | `sample[x] += 1` enters `x` and adds one to its intensity, the others unchanged |
| MutationKernels.Picks | modules/simulator/utils.h:240-241 | each draw picks the point at that index of the space |
| MutationKernels.TotalBump | modules/simulator/utils.h:242 | one more draw adds exactly one to the total |
| MutationKernels.TallyCounts | modules/simulator/utils.h:238-243 | the intensities sum to the number of draws, the keys are exactly the points drawn, and each intensity is the number of times its point was drawn |
| MutationKernels.UniformAtRandom.constructor | modules/simulator/utils.h:208 | `uniform_at_random(n)` stores the sampling size |
| MutationKernels.UniformAtRandom.Param | modules/simulator/utils.h:210 | `param()` returns a copy holding the size |
| MutationKernels.UniformAtRandom.SetParam | modules/simulator/utils.h:212 | `param(n)` replaces the size |
| MutationKernels.UniformAtRandom.SampleWithOwnParam | modules/simulator/utils.h:247-251 | the call without a parameter samples with the stored one |
| MutationKernels.Sample | modules/simulator/utils.h:227-245 | the call operator demands a positive size and counts, for each point, how often it was drawn |
| MutationKernels.SampleIsFromSpace | modules/simulator/utils.h:227-245 | the uniform sample holds `n` individuals in total, all at points of the space |
| Expressive.Apply | include/quetzal/expressive/expressive.h:375-387 | the five operators on two values: `/` and `%` fail exactly when the divisor is 0 (undefined behaviour in C++) and every other case has a value; truncating `/` satisfies `(x / y) * y + x % y == x` |
| Expressive.Eval | include/quetzal/expressive/expressive.h:301-362 | evaluating a combinator fails only through a division or remainder by zero: an expression without `/` or `%` always has a value (also lines 404-500 of the same file) |
| Expressive.EvalAll | include/quetzal/expressive/expressive.h:433-437 | calling every inner functor on the same arguments gives one value per inner functor |
| Expressive.LiteralIgnoresArguments | include/quetzal/expressive/expressive.h:201-225 | `literal(v)` returns `v` whatever it is called with |
| Expressive.ArithmeticIsPointwise | include/quetzal/expressive/expressive.h:350-381 | `(f + g)(a) == f(a) + g(a)`, and likewise for `-` and `*` |
| Expressive.DivisionIsPointwise | include/quetzal/expressive/expressive.h:383-387 | `(f / g)(a)` and `(f % g)(a)` are defined exactly when `g(a)` is non-zero, and then truncating division and remainder satisfy `(f / g) * g + f % g == f` |
| Expressive.NegationIsPointwise | include/quetzal/expressive/expressive.h:309-372 | `(-f)(a) == -(f(a))`, and negating twice gives `f` back |
| Expressive.MinusIsPlusNegate | include/quetzal/expressive/expressive.h:372-378 | `f - g` and `f + (-g)` agree on every argument pack |
| Expressive.ComposeFeedsInners | include/quetzal/expressive/expressive.h:403-447 | `compose(f, g1, ..., gn)(a) == f(g1(a), ..., gn(a))` (also lines 516-517 of the same file) |
| Expressive.EvalAllValues | include/quetzal/expressive/expressive.h:433-437 | when each inner functor is defined on `a`, the values passed to the outer one are theirs, in order |
| Expressive.ComposeAlone | include/quetzal/expressive/expressive.h:484-500 | `compose(f)` alone is `f` called on the same arguments |
| Expressive.ComposeOfOne | include/quetzal/expressive/expressive.h:451-480 | `compose(outer, inner)` with one inner functor is `outer(inner(a))` on every argument pack, a failure of `inner` passed on |
| Expressive.Then | include/quetzal/expressive/expressive.h:537-538 | `inner >> outer` pipes the output of `inner` into `outer` on every argument pack |
| Expressive.After | include/quetzal/expressive/expressive.h:553-554 | `outer << inner` pipes the output of `inner` into `outer` on every argument pack |
| Expressive.Chain | include/quetzal/expressive/expressive.h:521-571 | `chain(f1, ..., fn)` sends the result of `f1` through `f2`, ..., `fn` in that order, on every argument pack |
| Expressive.ChainConcat | include/quetzal/expressive/expressive.h:521-571 | chaining `fs` then `gs` is piping the result of the first chain into the second |
| Expressive.ChainOfThree | include/quetzal/expressive/expressive.h:570-571 | `chain(f1, f2, f3)(a) == f3(f2(f1(a)))` |
| Expressive.DoubleAndIncrementAtThree | include/quetzal/expressive/expressive.h:193-194 | with `f(x) = 2x` and `g(x) = x + 1` at 3: `f + g` is 10, `f / g` is 1, `f >> g` is `g(f(3)) = 7` and `f << g` is `f(g(3)) = 8`, so the two composition orders differ (also lines 374-384, 537-554 of the same file) |
| CsvParsing.ConsumeAdvancesPosition | modules/data/csv/csv_parser.h:35-38 | every character moves the position one right, except a new line, which moves to position 1 of the next line (also lines 166-168, 276-277 of the same file) |
| CsvParsing.SeparatorEmitsField | modules/data/csv/csv_parser.h:196-240 | a separator outside quotes and comments delivers the pending field, clears it and waits for the next field |
| CsvParsing.NewLineEndsRecord | modules/data/csv/csv_parser.h:196-209 | a new line ending an unquoted field delivers the field, then calls the end-of-line handler and moves to the next line |
| CsvParsing.DoubledQuote | modules/data/csv/csv_parser.h:213-272 | a doubled quote inside a quoted field stands for one quote, and the field goes on without a call |
| CsvParsing.QuotedKeepsCharacter | modules/data/csv/csv_parser.h:269-281 | inside quotes, separators and new lines are part of the field, and nothing is delivered |
| CsvParsing.MalformedAfterClosingQuote | modules/data/csv/csv_parser.h:213-233 | after a closing quote, any character but a separator, a quote or a new line sets `malformed_quoted_string` and reports it at the current line and position |
| CsvParsing.EndInsideQuotes | modules/data/csv/csv_parser.h:286-297 | data ending inside quotes sets `unterminated_quoted_string`, and the end-of-file handler is not called |
| CsvParsing.EmptyInput | modules/data/csv/csv_parser.h:286-305 | data ending before any character sets `error_empty_file`, reported at line 1, position 1 |
| CsvParsing.EndClosesField | modules/data/csv/csv_parser.h:286-295 | data ending in a field delivers it and ends its line |
| CsvParsing.StaysSilentTrans | modules/data/csv/csv_parser.h:124-164 | staying silent after an error composes over successive steps |
| CsvParsing.ConsumeSilent | modules/data/csv/csv_parser.h:124-164 | once an error is set, a character never calls the field or comment handler, and the error stays |
| CsvParsing.ErrorSilencesHandlers | modules/data/csv/csv_parser.h:124-135 | once an error is set, no later character calls the field or comment handler (also lines 155-164, 166-284 of the same file) |
| CsvParsing.EndSilent | modules/data/csv/csv_parser.h:286-314 | nor does the end of the data, which then skips the end-of-file handler too |
| CsvParsing.FedCons | modules/data/csv/csv_parser.h:166-284 | feeding a sequence of characters is consuming its first one, then the rest |
| CsvParsing.OneLine | modules/data/csv/csv_parser.h:166-314 | the line `a,b` calls the field handler with `a` then `b`, ends the line, then the file, without error |
| CsvParsing.QuotedOpening | modules/data/csv/csv_parser.h:172-181 | an opening quote, a character and a separator inside quotes leave the field `x,` pending in the quoted state (also lines 269-281 of the same file) |
| CsvParsing.QuotedLine | modules/data/csv/csv_parser.h:166-314 | `"x,"""` delivers the one field `x,"` |
| CsvParsing.CommentLine | modules/data/csv/csv_parser.h:172-187 | a comment line goes to the comment handler and the following line to the field handler (also lines 257-266 of the same file) |
| CsvParsing.CsvParser.constructor | modules/data/csv/csv_parser.h:113-121 | a new parser starts at line 1, position 1, in the initial state, with no error and no pending field |
| CsvParsing.CsvParser.Complete | modules/data/csv/csv_parser.h:316-320 | `complete()` reads a flag that nothing in the parser ever sets, so it is always false |
| CsvParsing.CsvParser.CallErrorHandler | modules/data/csv/csv_parser.h:147-153 | `call_error_handler` records the error and reports it with the current line and position when a handler is installed |
| CsvParsing.CsvParser.CallFieldHandler | modules/data/csv/csv_parser.h:124-135 | `call_field_handler` delivers the pending field only when no error is set, and a refusal sets `error_user_aborted` |
| CsvParsing.CsvParser.CallCommentHandler | modules/data/csv/csv_parser.h:155-164 | `call_comment_handler` does the same with the comment handler |
| CsvParsing.CsvParser.UpdateLineCounter | modules/data/csv/csv_parser.h:35-38 | `update_line_counter` moves to position 1 of the next line |
| CsvParsing.CsvParser.CallEndLineHandler | modules/data/csv/csv_parser.h:137-145 | `call_end_line_handler` calls the end-of-line handler when installed, then moves to the next line |
| CsvParsing.CsvParser.Consume | modules/data/csv/csv_parser.h:166-284 | `consume(c)` advances the position and takes the transition of the current state |
| CsvParsing.CsvParser.Switch | modules/data/csv/csv_parser.h:170-283 | the `switch` on the state takes the transition of that state |
| CsvParsing.CsvParser.ConsumeAtLineStart | modules/data/csv/csv_parser.h:172-195 | the transition at the start of a line |
| CsvParsing.CsvParser.ConsumeInRecord | modules/data/csv/csv_parser.h:196-212 | the transition inside an unquoted field |
| CsvParsing.CsvParser.ConsumeAfterQuote | modules/data/csv/csv_parser.h:213-234 | the transition after a quote inside a quoted field |
| CsvParsing.CsvParser.ConsumeBetweenRecords | modules/data/csv/csv_parser.h:235-256 | the transition after a separator |
| CsvParsing.CsvParser.ConsumeInComment | modules/data/csv/csv_parser.h:257-268 | the transition inside a comment |
| CsvParsing.CsvParser.ConsumeInQuotes | modules/data/csv/csv_parser.h:269-282 | the transition inside a quoted field |
| CsvParsing.CsvParser.EndOfData | modules/data/csv/csv_parser.h:286-314 | `end_of_data()` closes the pending field or reports the error of the state, then calls the end-of-file handler unless an error is set |
| CsvParsing.CsvParser.Reset | modules/data/csv/csv_parser.h:101-108 | `reset()` returns to the initial state at line 1, position 1, with no error, no pending field and the completion flag cleared |
| CsvData.WithField | src/include/quetzal/data/csv/csv_data.h:20-43 | `add_field(s)` appends `s` to the last record and changes no other record |
| CsvData.FieldStep | src/include/quetzal/data/csv/csv_data.h:70-88 | `field_handler(s)` keeps the table well formed: the records after the first line have their fields under headers |
| CsvData.EndLineStep | src/include/quetzal/data/csv/csv_data.h:89-94 | `end_line_handler()` keeps the table well formed |
| CsvData.Tabulated | src/include/quetzal/data/csv/csv_data.h:96-105 | the handler receiving any sequence of calls keeps the table well formed |
| CsvData.Handled | src/include/quetzal/data/csv/csv_data.h:103-104 | the handler answers only field and end-of-line calls |
| CsvData.Fields | src/include/quetzal/data/csv/csv_data.h:70 | a line's fields arrive as one field call each, in order |
| CsvData.GeneratedNames | src/include/quetzal/data/csv/csv_data.h:78-79 | the generated header names are `header` followed by their index |
| CsvData.HeaderLineFields | src/include/quetzal/data/csv/csv_data.h:72-75 | with a header line, the fields of the first line are appended to the headers and no record is made |
| CsvData.WithFieldLast | src/include/quetzal/data/csv/csv_data.h:20-43 | adding a field to a record just appended extends that record |
| CsvData.FirstRecordStep | src/include/quetzal/data/csv/csv_data.h:76-86 | one more field on the first line without headers adds a generated header and extends the first record |
| CsvData.GeneratedHeaderFields | src/include/quetzal/data/csv/csv_data.h:76-86 | without a header line, each field of the first line adds a generated header and goes to the first record |
| CsvData.RecordFields | src/include/quetzal/data/csv/csv_data.h:80-85 | after the first line, a line's first field opens a new record and the later ones append to it |
| CsvData.FirstLine | src/include/quetzal/data/csv/csv_data.h:70-94 | the first line, fields then end of line, gives the headers and no record with a header line, and otherwise generated headers and one record |
| CsvData.HeaderNamesDistinct | src/include/quetzal/data/csv/csv_data.h:79 | generated header names are distinct |
| CsvData.ParsedLine | src/include/quetzal/data/csv/csv_data.h:70-105 | the parser's calls for the line `a,b` build, without a header line, one record under `header0` and `header1` |
| CsvData.FirstIndex | src/include/quetzal/data/csv/csv_data.h:55-59 | the index found is that of the first header equal to the one asked for, and none exists when the header is absent |
| CsvData.LookupAsWritten | src/include/quetzal/data/csv/csv_data.h:53-61 | `csv_record::operator[](header)` as written returns the field at the first matching header, and nothing when the header is absent; it needs the record to reach that index |
| CsvData.ShortRecordReadsPastFields | src/include/quetzal/data/csv/csv_data.h:55-58 | a record shorter than the header line reads past its fields on the lookup of its last header |
| CsvData.Lookup | src/include/quetzal/data/csv/csv_data.h:53-61 | the lookup returns the field at the first matching header when the record has one, and nothing otherwise |
| CsvData.FirstIndexIs | src/include/quetzal/data/csv/csv_data.h:55-59 | the first matching index is found |
| CsvData.CsvTable.constructor | src/include/quetzal/data/csv/csv_data.h:36-41 | a new table has no record and no header |
| CsvData.CsvTable.NewRecord | src/include/quetzal/data/csv/csv_data.h:42 | `new_record()` appends an empty record |
| CsvData.CsvTable.AddField | src/include/quetzal/data/csv/csv_data.h:43 | `add_field(field)` appends to the last record |
| CsvData.CsvDataHandler.constructor | src/include/quetzal/data/csv/csv_data.h:96-105 | the handler starts at the beginning of the first line |
| CsvData.CsvDataHandler.FieldHandler | src/include/quetzal/data/csv/csv_data.h:70-88 | `field_handler(s)` always accepts and makes the field step |
| CsvData.CsvDataHandler.EndLineHandler | src/include/quetzal/data/csv/csv_data.h:89-94 | `end_line_handler()` always accepts and leaves the handler at the beginning of a later line |
| Partitioning.Enumerated | modules/fuzzy_transfer_distance/Partitioner.h:159-164 | `enumerate_elements(set)` numbers the set's elements 1 to `n` |
| Partitioning.Zeros | modules/fuzzy_transfer_distance/Partitioner.h:43-46 | the partition into one block is the string of `n` zeros |
| Common.Iota | modules/fuzzy_transfer_distance/Partitioner.h:47-51 | the partition into singletons is the string 0, 1, ..., `n - 1` |
| Partitioning.ExtendsTrans | modules/fuzzy_transfer_distance/Partitioner.h:79-81 | visits append, so the strings recorded over successive calls extend one another |
| Partitioning.LegalTail | modules/fuzzy_transfer_distance/Partitioner.h:61-64 | a recorded string dropped of its sentinel has one entry per element, starts with 0, and stays below `m` |
| Partitioning.Tails | modules/fuzzy_transfer_distance/Partitioner.h:61-64 | dropping the sentinel of every recorded string |
| Partitioning.Partitioner.constructor | modules/fuzzy_transfer_distance/Partitioner.h:35-36 | the partitioner enumerates the set and holds no recorded string |
| Partitioning.Partitioner.Visit | modules/fuzzy_transfer_distance/Partitioner.h:79-81 | `visit()` appends the current string to the recorded ones |
| Partitioning.Partitioner.F | modules/fuzzy_transfer_distance/Partitioner.h:83-119 | `f(mu, nu, sigma)` visits at least one string, keeps every entry below `m`, and leaves the sentinel, the first entry and every entry past `nu` as they were |
| Partitioning.Partitioner.ForwardLast | modules/fuzzy_transfer_distance/Partitioner.h:90-96 | the branch of `f` for `nu == mu + 1` has the same guarantees |
| Partitioning.Partitioner.ForwardInner | modules/fuzzy_transfer_distance/Partitioner.h:97-118 | the branch of `f` for `nu > mu + 1` has the same guarantees |
| Partitioning.Partitioner.Descend | modules/fuzzy_transfer_distance/Partitioner.h:104-116 | the parity test of `f` calls `b` or `f` on `nu - 1`, with the same guarantees there |
| Partitioning.Partitioner.Ascend | modules/fuzzy_transfer_distance/Partitioner.h:130-142 | the parity test of `b` calls `f` or `b` on `nu - 1`, with the same guarantees there |
| Partitioning.Partitioner.B | modules/fuzzy_transfer_distance/Partitioner.h:121-157 | `b(mu, nu, sigma)` has the same guarantees as `f` |
| Partitioning.Partitioner.BackwardLast | modules/fuzzy_transfer_distance/Partitioner.h:122-128 | the branch of `b` for `nu == mu + 1` keeps the entries below `m` and the frame |
| Partitioning.Partitioner.BackwardInner | modules/fuzzy_transfer_distance/Partitioner.h:129-150 | the branch of `b` for `nu > mu + 1` keeps the entries below `m` and the frame |
| Partitioning.Partitioner.Construct | modules/fuzzy_transfer_distance/Partitioner.h:39-71 | one block gives the single string of zeros, as many blocks as elements the single string 0 to `n - 1`; otherwise (assertion `1 < m < n`) at least one string, each with one entry per element, starting with 0 and below `m`, and the recorded strings are cleared |
| FuzzyPartitions.Keys | modules/fuzzy_transfer_distance/FuzzyPartition.h:209-215 | `retrieve_elements` collects exactly the map's keys |
| FuzzyPartitions.Range | modules/fuzzy_transfer_distance/FuzzyPartition.h:217-224 | `retrieve_clusters` gives exactly the indices 0 to `n - 1` of the first coefficient vector |
| FuzzyPartitions.RangeSize | modules/fuzzy_transfer_distance/FuzzyPartition.h:98-101 | there are as many clusters as coefficients per element (also lines 217-224 of the same file) |
| FuzzyPartitions.KeysSize | modules/fuzzy_transfer_distance/FuzzyPartition.h:92-95 | there are as many elements as map entries (also lines 209-215 of the same file) |
| FuzzyPartitions.CoefficientRows | modules/fuzzy_transfer_distance/FuzzyPartition.h:226-249 | `build_coefficients_matrix` has one row per cluster and one column per element |
| FuzzyPartitions.Column | modules/fuzzy_transfer_distance/FuzzyPartition.h:240-247 | a column of the matrix holds one element's coefficients over all clusters |
| FuzzyPartitions.ColumnIsCoefficients | modules/fuzzy_transfer_distance/FuzzyPartition.h:240-247 | column `j` of the matrix is the coefficient vector of the `j`-th element |
| FuzzyPartitions.Merged | modules/fuzzy_transfer_distance/FuzzyPartition.h:118-124 | after merging, the matrix has one row per block and the same columns |
| FuzzyPartitions.BlockTotals | modules/fuzzy_transfer_distance/FuzzyPartition.h:120-124 | the merged column of an element holds, for each block, the total of the coefficients of the clusters sent to it |
| FuzzyPartitions.BlockTotalsPreserveTotal | modules/fuzzy_transfer_distance/FuzzyPartition.h:120-124 | merging by a string whose entries are all below the block count keeps an element's total membership |
| FuzzyPartitions.MergedColumnTotals | modules/fuzzy_transfer_distance/FuzzyPartition.h:115-133 | merging clusters preserves every element's column total |
| FuzzyPartitions.MergingExample | modules/fuzzy_transfer_distance/FuzzyPartition.h:115-133 | merging clusters 0 and 1 of a four-cluster partition by the string 0, 0, 1, 2 gives the three-cluster matrix expected |
| FuzzyPartitions.RowsOf | modules/fuzzy_transfer_distance/FuzzyPartition.h:56 | the matrix entries read row by row (also lines 150 of the same file) |
| FuzzyPartitions.MatrixEqual | modules/fuzzy_transfer_distance/FuzzyPartition.h:274-292 | matrix `==` holds exactly when both shapes and all entries are equal |
| FuzzyPartitions.FillColumn | modules/fuzzy_transfer_distance/FuzzyPartition.h:240-246 | the inner loop of the constructor writes one element's coefficients into its column and nothing else |
| FuzzyPartitions.AddRow | modules/fuzzy_transfer_distance/FuzzyPartition.h:121-123 | the inner loop of `merge_clusters` adds row `i` of the old matrix into the row of its block and nothing else |
| FuzzyPartitions.FuzzyPartition.constructor | modules/fuzzy_transfer_distance/FuzzyPartition.h:69-77 | the constructor demands vectors of equal length; the elements are the keys, the clusters the indices of the first vector, and entry `(i, j)` the `j`-th element's `i`-th coefficient (also lines 209-249 of the same file) |
| FuzzyPartitions.FuzzyPartition.NElements | modules/fuzzy_transfer_distance/FuzzyPartition.h:92-95 | `nElements()` is the number of columns |
| FuzzyPartitions.FuzzyPartition.NClusters | modules/fuzzy_transfer_distance/FuzzyPartition.h:98-101 | `nClusters()` is the number of rows |
| FuzzyPartitions.FuzzyPartition.MergeClusters | modules/fuzzy_transfer_distance/FuzzyPartition.h:115-133 | `merge_clusters(rgs)` demands one string entry per cluster; row `b` of the new matrix sums the old rows sent to `b`, the elements stay and the clusters become 0 to `nBlocks - 1` |
| FuzzyPartitions.FuzzyPartition.Equals | modules/fuzzy_transfer_distance/FuzzyPartition.h:137-144 | `==` compares the elements, the clusters and every matrix entry |

## Left out

- Trees: a tree is a value and its parent pointer is the `hasParent` flag, so the in-place update and aliasing of `add_child` and the copy constructor are not captured.
- Trees.AddChildAsWritten: whether `push_back` reallocates depends on the vector's capacity, which is not modelled; it is the `reallocates` parameter.
- The sources of randomness are inputs rather than random number generators. This covers the shuffle's draws, the uniform draws, the ball placements, the kernel and dispersal functions, the draws of `History::backward_kernel` and of the simulator's `draw(t, i, d)`, the split points of `update_tree` and the sampled waiting times. No distributional property of the draws is stated.
- MergerPolicy.MergeProbability: the binary merger's probability is computed in real arithmetic, not in `double`.
- SpectrumDistribution: `compute_probability` evaluates von Mises' formula in multiprecision floating point, so here it is the parameter `probability`. The `std::discrete_distribution` draw is an input index, and `operator<<` is output only.
- Histories: the mass-based strategy (`History.h:55-149`, `428-499`) is left out; it works on floating-point densities and boost matrices. The `flows()` and `pop_sizes()` accessors only return a member.
- Flows: the `begin`/`end` iteration and `operator<<` are left out; they give iteration and output only.
- TransitionKernels: the copy and move constructors and assignments are the compiler's defaults.
- ForwardBackward: the `coalesce_to_mrca` overloads and `make_forest_and_coalesce_along_spatial_history` rely on the coalescence policy's `find_mrca` and `treat`. `make_forest` and `treat` are modelled in DistanceToParent. `find_mrca`, a random Wright–Fisher coalescence, is left out. `get_functor_N` is modelled as `PopSize`.
- DistanceToParent: the `ancestral_Wright_Fisher_N` setter and getter, `branch()`, `init()` and `find_mrca` are left out or reduce to a plain value.
- Forests: the forest is a sequence in insertion order, whereas the iteration order of an `unordered_multimap` is unspecified. The iterators are left out.
- `merge.hpp`, which `merger_policy.hpp` includes, is not part of this model; the kernels follow `modules/coalescence/algorithms/merge.h`.
- KAryTrees: `degree`, `in_degree`, `predecessor`, `find_root_from`, `is_isomorphic`, `depth_first_search` and `to_graphviz` just wrap Boost.Graph calls, so they are left out. The vertex and edge property specialisations are left out, and the unused `k_max` is not modelled.
- CardinalTrees: the following are left out.
  - `add_left_edge`, `add_right_edge`, `clear_vertex` and `remove_vertex`.
  - The `in_edges`, `in_degree` and `degree` queries.
  - Acyclicity, which a ghost rank witness stands for.
- CardinalTrees: a visitor is modelled as the log of its calls, and `traverse_step`'s integer result is `TraverseStep`'s. `detail_k_ary_tree.hpp` is not part of this model.
- Vicinity: the interior calls `connect_interior_vertices(s, graph)` at `vicinity.hpp:195` and `371` pass two arguments to helpers declared with four (`vicinity.hpp:127`, `300`); the model reads them as wiring the neighbours without the bound policy, which an interior cell, having no off-grid neighbour, does not need.
- Vicinity.ConnectNeighbors: requires a bound policy other than sink. `sink` adds vertex `width * height`, which raises the loop bound `num_vertices()`, so the loop goes on to wire the sink vertex as if it were a grid cell; what happens then, including whether the loop ends, is not modelled. The sink policy is modelled on its own. With `eight`, the wiring uses the corrected bottom border of the Findings row for vicinity.hpp:270-278, whose upper diagonals are `s - width - 1` and `s - width + 1`. As written, `connect_bottom_border_no_corner` links `s + width - 1` and `s + width + 1`, one row below the grid; on the `vecS` graph that `add_edge` adds vertices past `width * height` and raises the loop bound, so the loop runs on past the grid. That version of the wiring, and its claim that no vertex is added, is not modelled; `Vicinity.BottomBorderLeavesGrid` exhibits the stray target.
- Vicinity.ConnectNeighbors: requires a grid of at least 2 x 2 cells, which the source does not demand. On a grid of one row the top helpers link `s + width`, and on a grid of one column the bottom-left corner links `s + 1`; both targets lie at or past `width * height`, so on the `vecS` graph `add_edge` adds vertices and raises the loop bound `num_vertices()`, as with the sink policy. What the loop does then is not modelled; `Vicinity.ThinGridsLeaveGrid` exhibits the stray targets.
- Vicinity.ConnectCell: requires a grid of at least 2 x 2 cells, which the helpers do not demand; on a grid of one row or one column some of their targets lie off the grid (`Vicinity.ThinGridsLeaveGrid`), and those calls are not modelled.
- Vicinity.ConnectCell: with `eight`, a bottom-border cell is linked to the corrected upper diagonals `s - width - 1` and `s - width + 1` (see the Findings row for vicinity.hpp:270-278), not to the as-written `s + width - 1` and `s + width + 1`, which lie past `width * height` and would grow the graph; the as-written targets are shown only by `Vicinity.BottomBorderLeavesGrid`.
- Extent.EqualsIsEquivalence: bounds are reals, so a `double` NaN bound, for which `==` is not reflexive, is not modelled.
- Resolution.EqualsIsEquivalence: lengths are reals, so a `double` NaN length, for which `==` is not reflexive, is not modelled.
- KAryTrees.KAryTree.AddEdges: requires the parent and children to be existing vertices; Boost's `add_edge` on a `vecS` graph would grow the vertex set instead, which is not modelled.
- CardinalTrees.BidirectionalTree.AddEdge: requires `u` and `v` to be existing vertices; the source indexes its vertex storage without a check, so an out-of-range vertex has no defined behaviour to model.
- ForwardBackward.Simulator.CheckConsistency: looking up a position with no entry through the mutable `pop_size` map creates a 0 entry before the error is raised; that side effect on the failing path is not modelled.
- Histories.History.BackwardKernel: caches through the `set` of the transition kernel as written (see Findings), so it evicts the other distributions cached at `t - 1`; the corrected `InsertInLayer` is proved beside it but not used here.
- SpatialGeneticSample: `reproject` and `frequencies` are left out.
- SamplingScheme.ConstrainedSampling.Sample: states the corrected outcome `SampleOf`, in which reading a rejected point does not enter it; the code as written, which enters it with intensity 0, is `SampleAsWritten` (see Findings).
- Raster: the GDAL dataset, reading and exporting bands and the latitude/longitude extent functions are left out; only the grid's dimensions are modelled.
- The `neighbor_migration` and `clustered_sampling` utilities are left out; they work in floating point with Gaussian draws. `cell_JC69` is a plain record.
- Expressive: values are integers, so `operator!` on them is not modelled. The stream printers and the static type checks are left out.
- Expressive.Chain: follows the code of `chain` (`expressive.h:571`, `f1 >> chain(f2, ...)`), in which `f1` is applied first; the comment above it calls `f1` the outer function.
- CsvParsing: `abort`, `set_separator`, `current_line`/`current_position` and `error()`/`last_error` are modelled only in part. `complete()` is always false, because `complete_` is never set.
- CsvData: `operator[](size_t)`, `size` and the iterators of `csv_record` are left out.
- FuzzyPartitions: `fuzzy_transfer_distance`, `weighted_bipartite_graph`, `compute_cost`, the Munkres algorithm and `compute_solution_cost` are left out; they form a floating-point Hungarian assignment. `check_coefficients_validty` has no observable effect, and `double` coefficients are reals.
- Partitioning.Partitioner.Construct: this contract is weaker than the source's promise. It proves the shape of the results, that every entry is below `m`, and the frame. It does not prove that exactly the `m`-block restricted growth strings are enumerated, with Stirling counts such as 25 and 6, in Knuth's order.
- `RestrictedGrowthString.h` is not part of this model.

## Findings

| source | as written | input that shows it | evidently intended | confidence | as-written member | corrected member |
|---|---|---|---|---|---|---|
| src/include/quetzal/coalescence/merger_policy.hpp:67-69 | the binary merger takes `k (k - 1) / 2N` as a probability after asserting only `k >= 2` and `N >= 1` | `k = 3`, `N = 1` gives 3, above 1 | a probability in [0, 1], with a merge certain when the ratio reaches 1 | not executed | MergerPolicy.CoalescenceProbabilityExceedsOne | MergerPolicy.MergeProbability |
| src/include/quetzal/geography/raster.hpp:295 | `to_descriptor` returns `col * width + col` | 2 x 2 grid, column 0 of row 1 gives 0 instead of 2 | `row * width + col`, the inverse of `to_colrow` | not executed | Raster.ToDescriptorAsWrittenIsNotInverse | Raster.DescriptorRoundTrip |
| src/include/quetzal/geography/raster.hpp:233-236 | `locations()` fills `0 .. width * height - 1` exclusive | any non-empty grid; the last cell `width * height - 1` is missing | every cell of the grid | not executed | Raster.LocationsAsWrittenMissLastCell | Raster.LocationsAreCells |
| src/include/quetzal/geography/raster.hpp:238-242 | `times()` fills `0 .. depth() - 1` exclusive | any dataset with bands; the last band `depth - 1` is missing | every band of the dataset | not executed | Raster.TimesAsWrittenMissLastBand | Raster.TimesAreBands |
| src/include/quetzal/geography/graph/detail/vicinity.hpp:270-278 | the 8-neighbour bottom border links `s + width - 1` and `s + width + 1`, one row below the grid | 3 x 2 grid, cell 4 is linked to vertex 8 | the two upper diagonals `s - width - 1` and `s - width + 1` | not executed | Vicinity.BottomBorderLeavesGrid | Vicinity.TargetsAreNeighbours |
| modules/utils/sampling_scheme.h:122-130 | `sample[_space[id]] < pop` inserts the point with intensity 0 before its test, so `sample.empty()` is false | space `['x']` with population size 0, `n = 1` | the `logic_error` "no individual sampled" when no point was accepted | not executed | SamplingScheme.ZeroIntensityEscapesCheck | SamplingScheme.SampleOf |
| include/quetzal/random/TransitionKernel.h:292-295 | `set` replaces the time's whole state map with `{x: d}` | `set(0, 2017, d)` then `set(1, 2017, d')` loses state 0 | add `(x, t)` and keep the other states at `t` | not executed | TransitionKernels.SetForgetsEarlierState | TransitionKernels.InsertInLayerMeaning |
| include/quetzal/simulator/DiscreteTimeWrightFisher.h:93-138 | the waiting time asserts `N > k` while `coalesce` admits `k <= N` | `k = 2`, `N = 2` | a waiting time for every `k` that `coalesce` admits | not executed | WrightFisher.WaitingTimeAssertFailsInRun | WrightFisher.BinaryMerges |
| src/include/quetzal/data/csv/csv_data.h:55-58 | the record lookup returns `fields_[i]` without checking `i` against the fields | headers `["a", "b"]`, fields `["1"]`, lookup `"b"` reads past the fields | no value when the record has no field at that header | not executed | CsvData.ShortRecordReadsPastFields | CsvData.Lookup |
| include/quetzal/coalescence/containers/Tree.h:359-382 | `add_child` sets `m_parent = this` on a local, then stores it with `push_back(std::move(...))`, whose move constructor resets `m_parent` to null | `Tree<int> t(1); t.add_child(2).has_parent()` is false | the stored child records its parent | not executed | Trees.AddChildLosesParent | Trees.AddChild |
| src/include/quetzal/coalescence/graph/detail/cardinal_k_ary_tree.hpp:568-579 | the `else if` branches test `u` a second time where `v` was meant | a lone leaf against a cherry is reported isomorphic | false when only `v` has that successor | not executed | CardinalTrees.LeafMatchesCherryAsWritten | CardinalTrees.IsomorphicNonemptyMatchesShape |
