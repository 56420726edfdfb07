# CS232 data structures and algorithms, modelled in Dafny

This project models the core of a set of CS232 course solutions (C++) and
proves properties of the model. It covers eight parts, one Dafny module each:

- `TwoThreeFourTree` (two_three_four_tree.dfy): the 2-3-4 tree of Lab 8. It covers top-down
  insertion that splits every 4-node on the way down, the root split, the
  splits of a 2-node's or a 3-node's 4-node child (cases B1, B2, C1, C2, C3),
  search, and the in-order traversal.
- `TwoThreeTree` (two_three_tree.dfy): the 2-3 tree of Lab 6. It covers insertion into a leaf,
  bottom-up split with the ADD BRANCH placement and cases A to D, search, and
  the traversal that also visits the empty second slot of a one-key node.
- `SplayTree` (splay_tree.dfy): the splay tree of Lab 7. It covers the two rotations, `fullsplay`
  (used by insert), `semisplay` (used by search), insert and search.
- `HuffmanTable` and `HuffmanCode` (huffman_table.dfy, huffman_code.dfy): the Huffman coder of
  Project 4. They cover the frequency table (`addOrIncrease`, `comp`, the
  stable `list::sort`), the tree built by repeatedly merging the two front
  entries, the code table (`recGenHuffTable`), encoding, rebuilding the tree
  from a code table (`insertLetterNode`) and decoding. The end-to-end result
  is that decoding the encoding gives the text back, upper-cased.
- `MergeSort` (merge_sort.dfy): `merge2`, `mergesort2` and `msSort` of Lab 1. The routines
  alternate between two arrays and are written here as loops over sequences.
- `GraphAdt` (graph.dfy): the vertex/edge management of the Graph ADT of Project 3. It covers
  the records, the name-only comparisons, the add/delete/test operations and
  the integer result codes the driver reads.
- `ComplexProduct` (complex_product.dfy): the three-multiplication complex product of Lab 10.
- `LockMapping` (lock_mapping.dfy): the index mapping of the lock state table of Lab 4.

`Wrappers` (wrappers.dfy) holds the `Option` type. `OrderedKeys` (ordered_keys.dfy) holds
the key-set bounds and ascending-order facts that both balanced trees use.

Tree keys are mathematical integers, and the trees are immutable datatypes
without parent pointers. Each node kind is a datatype alternative (`Two`,
`Three`, `Four`), so an empty key slot is not the integer 0. Pointer updates
become functions that return the new tree. A routine that rearranges two
arrays returns the new contents.

## Model

| member | source | states |
|---|---|---|
| ComplexProduct.ThreeProductImaginary | cs232_Lab10_2020/Zhong_cs232lab10.cpp:32-37 | (a+b)(c+d) - ac - bd is the imaginary part ad + bc of the product, so the third product recovers it |
| ComplexProduct.ComputeComplex | cs232_Lab10_2020/Zhong_cs232lab10.cpp:17-38 | computeComplex returns the complex product (ac - bd) + (ad + bc)i and performs exactly three multiplications |
| ComplexProduct.ProductCommutes | cs232_Lab10_2020/Zhong_cs232lab10.cpp:30-38 | the computed product does not depend on the order of the operands |
| ComplexProduct.ProductUnit | cs232_Lab10_2020/Zhong_cs232lab10.cpp:30-38 | 1 + 0i is a two-sided unit of the product |
| LockMapping.StateValue | cs232_Lab4_Proj1_2020/lockTypes.h:24-32 | every lock state converts to a row number below 7 |
| LockMapping.EventValue | cs232_Lab4_Proj1_2020/lockTypes.h:39-45 | every event converts to a column number below 5 |
| LockMapping.StateOfValue | cs232_Lab4_Proj1_2020/lockTypes.h:24-32 | every row number below 7 is the value of some state (the enumeration is onto its range) |
| LockMapping.EventOfValue | cs232_Lab4_Proj1_2020/lockTypes.h:39-45 | every column number below 5 is the value of some event |
| LockMapping.MappingOfData | cs232_Lab4_Proj1_2020/mapping.cpp:16-33 | mappingOfData lands inside the table (below tableSize 35), and the state is the row and the event the column of the index |
| LockMapping.CellOf | cs232_Lab4_Proj1_2020/lockTypes.h:17 | every index of the 35-cell table is the image of some (state, event) cell |
| LockMapping.MappingInjective | cs232_Lab4_Proj1_2020/mapping.cpp:30-33 | distinct (state, event) pairs never share a table index |
| LockMapping.CellOfMapping | cs232_Lab4_Proj1_2020/mapping.cpp:30-33 | the row/column decomposition undoes the mapping |
| LockMapping.EveryIndexHitOnce | cs232_Lab4_Proj1_2020/mapping.cpp:30-33 | the mapping is a bijection between the 7 x 5 cells and the indices 0..34 |
| MergeSort.MergeRef | cs232_Lab1_2020/cs232_lab1_ZHONG.cpp:295-314 | the merge of two runs as merge2 performs it, the reference Merge2 is proved against; MergeRefTieTakesSecond, MergeRefLength, MergeRefPermutes and MergeRefSorted state what it is |
| MergeSort.MergeRefTieTakesSecond | cs232_Lab1_2020/cs232_lab1_ZHONG.cpp:302-305 | on equal front elements merge2 emits the second run's element first |
| MergeSort.MergeRefLength | cs232_Lab1_2020/cs232_lab1_ZHONG.cpp:295-314 | the merge has as many elements as the two runs together |
| MergeSort.MergeRefPermutes | cs232_Lab1_2020/cs232_lab1_ZHONG.cpp:295-314 | the merge is a permutation of the two runs together |
| MergeSort.MergeRefLowerBound | cs232_Lab1_2020/cs232_lab1_ZHONG.cpp:295-314 | a common lower bound of both runs bounds the whole merge |
| MergeSort.MergeRefSorted | cs232_Lab1_2020/cs232_lab1_ZHONG.cpp:295-314 | merging two sorted runs gives a sorted run |
| MergeSort.MergeStep | cs232_Lab1_2020/cs232_lab1_ZHONG.cpp:300-307 | one step of the merge loop writes the smaller front element, the second run's on a tie, and continues with the remaining runs |
| MergeSort.Merge2 | cs232_Lab1_2020/cs232_lab1_ZHONG.cpp:295-314 | merge2 writes into dest[l..r] the merge of the sorted runs source[l..mid] and source[mid+1..r], and leaves dest outside l..r alone |
| MergeSort.MergeSort2 | cs232_Lab1_2020/cs232_lab1_ZHONG.cpp:317-326 | mergesort2 leaves dest[l..r] sorted and a permutation of what it held, and touches neither array outside l..r |
| MergeSort.MsSortAsWritten | cs232_Lab1_2020/cs232_lab1_ZHONG.cpp:329-337 | msSort as written sorts a non-empty block in place: the result is sorted and a permutation of the input |
| MergeSort.MsSort | cs232_Lab1_2020/cs232_lab1_ZHONG.cpp:329-337 | msSort, guarded for blocks of fewer than two elements, sorts every block: sorted and a permutation of the input |
| MergeSort.CDiv | cs232_Lab1_2020/cs232_lab1_ZHONG.cpp:321 | the division (l + r) / 2 truncates toward zero: the remainder has the dividend's sign and is smaller than the divisor |
| MergeSort.MergeRanges | cs232_Lab1_2020/cs232_lab1_ZHONG.cpp:317-326 | the two ranges mergesort2 recurses on; MergeRangesShrink and EmptyBlockRecursesForever state when they shrink and when they do not |
| MergeSort.MergeRangesShrink | cs232_Lab1_2020/cs232_lab1_ZHONG.cpp:317-326 | on a range of two or more elements both recursive calls of mergesort2 get non-empty, strictly shorter ranges inside it |
| MergeSort.EmptyBlockRecursesForever | cs232_Lab1_2020/cs232_lab1_ZHONG.cpp:317-337 | for an empty block, msSort's call mergesort2(.., 0, -1) recurses to (1, -1), then (1, 0), then (1, 0) again, forever |
| GraphAdt.StringLessIrreflexive | CS232_Proj3/myGraphADT.h:180-183 | no name precedes itself under std::string operator< |
| GraphAdt.StringTrichotomy | CS232_Proj3/myGraphADT.h:180-183 | two names are either equal or ordered exactly one way |
| GraphAdt.StringLessTransitive | CS232_Proj3/myGraphADT.h:180-183 | the name order is transitive |
| GraphAdt.EdgeEq | CS232_Proj3/myGraphADT.h:180-181 | edgeRep's == and !=; EdgeComparisonIgnoresWeight states they look at the destination name alone |
| GraphAdt.EdgeLess | CS232_Proj3/myGraphADT.h:182-183 | edgeRep's < and >; EdgeComparisonIgnoresWeight states they look at the destination name alone and order edges totally |
| GraphAdt.EdgeComparisonIgnoresWeight | CS232_Proj3/myGraphADT.h:180-183 | edgeRep's == and < see the destination name only and order edges totally; the weight takes no part |
| GraphAdt.VertexEq | CS232_Proj3/myGraphADT.h:211-212 | vertex's == and !=; VertexComparisonIgnoresFields states they look at the name alone |
| GraphAdt.VertexLess | CS232_Proj3/myGraphADT.h:213-214 | vertex's < and >; VertexComparisonIgnoresFields states they look at the name alone and order vertices totally |
| GraphAdt.VertexComparisonIgnoresFields | CS232_Proj3/myGraphADT.h:211-214 | vertex == and < see the name only and order vertices totally; flags, distance, predecessor and edge list take no part |
| GraphAdt.VertexCount | CS232_Proj3/myGraphADT.h:105 | vertexCount, the number of vertices; EmptyGraph states it is 0 for a new graph |
| GraphAdt.NewVertex | CS232_Proj3/myGraphADT.h:196-202 | the vertex constructor's defaults (visited 0, predecessor the vertex itself, distance INF, no edges); AddVertex states that an added vertex gets exactly these |
| GraphAdt.EmptyGraph | CS232_Proj3/myGraphADT.h:99 | a new graph satisfies the graph invariant and has no vertices |
| GraphAdt.BiAddCode | CS232_Proj3/main.cpp:417-427 | the integer AddBiDirEdge returns for each outcome; BiCodesDistinguishable states that the driver reads every outcome back from it |
| GraphAdt.BiDeleteCode | CS232_Proj3/main.cpp:433-443 | the integer DeleteBiDirEdge returns for each outcome; BiCodesDistinguishable states that the driver reads every outcome back from it |
| GraphAdt.DistanceCode | CS232_Proj3/main.cpp:295-305 | the value ShortestDistance returns for each outcome; DistanceCodesDistinguishable states that the driver reads every outcome back from it |
| GraphAdt.BiCodesDistinguishable | CS232_Proj3/main.cpp:417-443 | the driver can tell each of the four outcomes of AddBiDirEdge and of DeleteBiDirEdge from the code returned |
| GraphAdt.UniAddCodeRead | CS232_Proj3/main.cpp:249-252 | the driver's test for -1 after AddUniEdge is true exactly for the existing-edge outcome, and distinct outcomes return distinct codes |
| GraphAdt.DistanceCodesDistinguishable | CS232_Proj3/main.cpp:295-304 | the sentinels -1, -2, -3 and every non-negative distance returned by ShortestDistance are read back as distinct outcomes |
| GraphAdt.IsVertex | CS232_Proj3/main.cpp:273-276 | isVertex fails exactly when no vertex has the name |
| GraphAdt.AddVertex | CS232_Proj3/myGraphADT.h:120 | AddVertex fails exactly when the name is taken and then changes nothing; otherwise it adds one vertex with the default fields of the vertex constructor (myGraphADT.h:196-202) and keeps the others and the invariant |
| GraphAdt.RemoveEdgesTo | CS232_Proj3/myGraphADT.h:123 | removing the edges to a vertex from a list keeps exactly the other edges, weights included, and keeps their destinations distinct |
| GraphAdt.DeleteVertex | CS232_Proj3/myGraphADT.h:123 | DeleteVertex fails exactly when the vertex is absent and then changes nothing; otherwise it removes the vertex and exactly the edges into or out of it; every surviving vertex keeps its other fields and every other edge with its weight |
| GraphAdt.IsUniEdge | CS232_Proj3/main.cpp:264-267 | isUniEdge fails exactly when the directed edge is absent |
| GraphAdt.AddUniEdge | CS232_Proj3/myGraphADT.h:117 | AddUniEdge's integer code (UniAddCode) is -1 exactly when the edge exists; on success v1's edges become its old edges plus <v1,v2,wt>, with its other fields and every other vertex's record kept; any failure changes nothing |
| GraphAdt.AppendEdge | CS232_Proj3/myGraphADT.h:117 | appending <v1,v2,wt> to v1's list adds that edge only, keeps every other record and field, and keeps the graph invariant |
| GraphAdt.DeleteUniEdge | CS232_Proj3/myGraphADT.h:114 | DeleteUniEdge fails exactly when the edge is absent and then changes nothing; afterwards the edge is absent, v1 keeps its other fields and every other edge with its weight, and every other vertex's record is kept |
| GraphAdt.IsBiDirEdge | CS232_Proj3/main.cpp:448-451 | isBiDirEdge fails exactly when one of the two directions is missing |
| GraphAdt.AddBiDirEdge | CS232_Proj3/main.cpp:417-427 | between two vertices both directions exist afterwards, each direction that was missing is added with weight wt (myGraphADT.h:127-128), and the outcome (0, -1, -2, -3) names exactly which directions already existed; v1 and v2 keep their other fields and old edges, and every other vertex's record is kept |
| GraphAdt.DeleteBiDirEdge | CS232_Proj3/main.cpp:433-443 | both directions are absent afterwards, and the outcome (0, -1, -2, -3) names exactly which directions existed; v1 and v2 keep their other fields and every other edge with its weight, and every other vertex's record is kept |
| GraphAdt.ShortestDistance | CS232_Proj3/main.cpp:295-304 | the result is -1 exactly when v1 is absent, -2 exactly when v1 is present and v2 absent, -3 exactly when the distance stayed at INF (myGraphADT.h:46), and the distance otherwise |
| GraphAdt.AddVertexTwice | CS232_Proj3/main.cpp:230-233 | adding a vertex that was just added reports -1 and changes nothing |
| GraphAdt.DeleteVertexLeavesNoDanglingEdge | CS232_Proj3/main.cpp:239-242 | after DeleteVertex(x), x is no vertex and no vertex has an edge to x |
| GraphAdt.BiDirEdgeAccounting | CS232_Proj3/main.cpp:417-451 | after AddBiDirEdge(a, b) isBiDirEdge(a, b) succeeds; deleting <a,b> then makes it fail while <b,a> remains |
| TwoThreeFourTree.NodeType | cs232_Lab8_2020/234_tree.h:576-583 | nodeType is one more than the number of keys the node holds |
| TwoThreeFourTree.WhichChild | cs232_Lab8_2020/234_tree.h:633-683 | whichChild is -1 exactly when x is a key of the node, 0 exactly when it is not and the node is a leaf, and otherwise the slot of the child whose key range holds x |
| TwoThreeFourTree.InsertSortedElements | cs232_Lab8_2020/234_tree.h:586-621 | placing a key among a node's keys adds exactly that key |
| TwoThreeFourTree.InsertSortedSorted | cs232_Lab8_2020/234_tree.h:586-621 | placing a new key among ascending keys keeps them ascending |
| TwoThreeFourTree.InsertData | cs232_Lab8_2020/234_tree.h:586-621 | insertData puts x among the node's keys in order and leaves the children alone; on a leaf the key set grows by exactly x |
| TwoThreeFourTree.SplitRoot | cs232_Lab8_2020/234_tree.h:463-481 | splitRoot keeps the middle key in a 2-node root with the outer keys as its first and fourth children; keys and in-order sequence are unchanged, and a valid tree stays valid and grows one level |
| TwoThreeFourTree.SplitChild | cs232_Lab8_2020/234_tree.h:484-573 | splitting a 4-node child promotes its middle key, so the parent gains one key, and the key set, in-order sequence and size are unchanged |
| TwoThreeFourTree.HalvesCover | cs232_Lab8_2020/234_tree.h:484-573 | the two halves of a split 4-node and its middle key hold exactly its keys, in order |
| TwoThreeFourTree.SplitChildOf2 | cs232_Lab8_2020/234_tree.h:484-519 | splitChildOf2 turns the 2-node parent into a 3-node with the same keys and in-order sequence |
| TwoThreeFourTree.SplitChildOf3 | cs232_Lab8_2020/234_tree.h:522-573 | splitChildOf3 turns the 3-node parent into a 4-node with the same keys and in-order sequence |
| TwoThreeFourTree.SplitChildValid | cs232_Lab8_2020/234_tree.h:484-573 | a child split keeps the tree ordered, balanced and of the same height |
| TwoThreeFourTree.SplitRoutesIntoHalf | cs232_Lab8_2020/234_tree.h:384-386 | after the split, the key that routed into the 4-node is either its promoted middle key or is routed into one of the two new halves |
| TwoThreeFourTree.WithChildValid | cs232_Lab8_2020/234_tree.h:370-405 | putting back a child that took x on x's route keeps the tree valid and its height, and adds exactly x |
| TwoThreeFourTree.RouteMembership | cs232_Lab8_2020/234_tree.h:633-683 | in an ordered node, a key routed to a child is in the tree exactly when it is in that child |
| TwoThreeFourTree.InsertDataValid | cs232_Lab8_2020/234_tree.h:586-621 | insertData on a leaf keeps it a valid node of the same height |
| TwoThreeFourTree.Descend | cs232_Lab8_2020/234_tree.h:370-405 | the descent of add from a 2- or 3-node keeps the tree valid and its height, adds exactly x, and reports success exactly when x was absent |
| TwoThreeFourTree.DescendSplitting | cs232_Lab8_2020/234_tree.h:384-386 | splitting a 4-node child on the route first and routing again keeps the same guarantee as Descend |
| TwoThreeFourTree.DescendInto | cs232_Lab8_2020/234_tree.h:370-405 | descending into a 2- or 3-node child and putting the result back keeps the same guarantee as Descend |
| TwoThreeFourTree.Add | cs232_Lab8_2020/234_tree.h:353-406 | add keeps the tree valid and adds exactly x; it returns true exactly when x was absent; an empty tree becomes a one-key root; the height grows by one exactly when the root was a 4-node |
| TwoThreeFourTree.Build | cs232_Lab8_2020/234_tree.h:353-406 | adding keys one by one to an empty tree keeps the tree valid at every step |
| TwoThreeFourTree.BuildKeys | cs232_Lab8_2020/234_tree.h:353-406 | the tree built by adding keys one by one holds exactly the keys added |
| TwoThreeFourTree.Search | cs232_Lab8_2020/234_tree.h:410-460 | on an ordered tree search succeeds exactly when the key is present |
| TwoThreeFourTree.InOrder | cs232_Lab8_2020/234_tree.h:790-823 | the key sequence inord visits; InOrderSorted states it lists exactly the keys, ascending |
| TwoThreeFourTree.InOrderSorted | cs232_Lab8_2020/234_tree.h:790-823 | the in-order traversal lists exactly the tree's keys in strictly ascending order |
| TwoThreeFourTree.DuplicateAddMayReshape | cs232_Lab8_2020/234_tree.h:365-386 | adding a key that is already present reports false but keeps the root split it made first |
| TwoThreeFourTree.FirstFourAdds | cs232_Lab8_2020/lab8Driver.cpp:55-67 | adding 60, 50, 70, 40 gives root 60 with children [40 50] and [70], traversed as 40 50 60 70 |
| TwoThreeTree.Route | cs232_Lab6_2020/tree23.cpp:300-354 | the child privSearch descends into; RouteInRange and RouteMembership state it exists and is the one whose range holds the key |
| TwoThreeTree.RouteInRange | cs232_Lab6_2020/tree23.cpp:300-354 | the descent picks an existing child whose key range holds the key |
| TwoThreeTree.PrivSearch | cs232_Lab6_2020/tree23.cpp:300-354 | privSearch returns a node of the tree; if it found the key the key is in that node, otherwise the node is a leaf; on an ordered tree it finds the key exactly when it is present |
| TwoThreeTree.Search | cs232_Lab6_2020/tree23.cpp:292-298 | on an ordered tree search succeeds exactly when the key is present |
| TwoThreeTree.SplitKeys | cs232_Lab6_2020/tree23.cpp:164-183 | the key part of split rearranges the two keys and the new one, and for distinct keys puts them in ascending order so that the middle one is promoted |
| TwoThreeTree.PlaceBranch | cs232_Lab6_2020/tree23.cpp:191-233 | ADD BRANCH inserts the new branch at one position among the three children and keeps their order |
| TwoThreeTree.PlaceBranchAfterSplitChild | cs232_Lab6_2020/tree23.cpp:191-233 | in a valid tree the comparisons of ADD BRANCH put the new sibling right after the child it was split from, so its case 1 never applies |
| TwoThreeTree.PromoteIntoTwo | cs232_Lab6_2020/tree23.cpp:252-262 | cases C and D, a 2-node parent absorbing its child's split; PromoteIntoTwoValid states the result is a valid 3-node of the same height with one key more |
| TwoThreeTree.PromoteIntoTwoValid | cs232_Lab6_2020/tree23.cpp:252-262 | cases C and D promote the middle key into a 2-node parent, giving a valid 3-node of the same height that holds exactly one key more |
| TwoThreeTree.PromoteFirst | cs232_Lab6_2020/tree23.cpp:258-262 | case D: when the first child split, the promoted key goes before the parent's key and the sibling between them, giving a valid 3-node of the same height with exactly one key more |
| TwoThreeTree.PromoteSecond | cs232_Lab6_2020/tree23.cpp:252-257 | case C: when the second child split, the promoted key follows the parent's key and the sibling becomes the third child, giving a valid 3-node of the same height with exactly one key more |
| TwoThreeTree.SplitInterior | cs232_Lab6_2020/tree23.cpp:247-251 | case B splits a full parent in turn |
| TwoThreeTree.SplitInteriorValid | cs232_Lab6_2020/tree23.cpp:191-251 | case B splits a full interior parent into two valid halves around its middle key, holding exactly its keys and the new one |
| TwoThreeTree.SplitInteriorCase1 | cs232_Lab6_2020/tree23.cpp:164-215 | when the parent's first child split, the promoted key is the smallest, so the parent's first key rises; ADD BRANCH (its case 2) leaves the split child and its sibling under the old node and the other two children under the new sibling |
| TwoThreeTree.SplitInteriorCase2 | cs232_Lab6_2020/tree23.cpp:172-224 | when the parent's second child split, the promoted key is the middle one and rises again; ADD BRANCH (its case 3) gives the old node the first child and the split child, and the new sibling the child's sibling and the third child |
| TwoThreeTree.SplitInteriorCase3 | cs232_Lab6_2020/tree23.cpp:178-232 | when the parent's third child split, the parent's second key rises; ADD BRANCH (its case 4) puts the split child and its sibling under the new sibling |
| TwoThreeTree.SplitFirst | cs232_Lab6_2020/tree23.cpp:164-215 | the case-1 split of the parent is a valid split holding the parent's keys and the new one |
| TwoThreeTree.SplitSecond | cs232_Lab6_2020/tree23.cpp:172-224 | the case-2 split of the parent is a valid split holding the parent's keys and the new one |
| TwoThreeTree.SplitThird | cs232_Lab6_2020/tree23.cpp:178-232 | the case-3 split of the parent is a valid split holding the parent's keys and the new one |
| TwoThreeTree.PartsAbove | cs232_Lab6_2020/tree23.cpp:136-263 | the parts of a split stay above every bound the split node and the new key were above |
| TwoThreeTree.PartsBelow | cs232_Lab6_2020/tree23.cpp:136-263 | the parts of a split stay below every bound the split node and the new key were below |
| TwoThreeTree.SplitOfParts | cs232_Lab6_2020/tree23.cpp:136-263 | four subtrees of one height separated by three ascending keys form a valid split around the middle key |
| TwoThreeTree.Ins | cs232_Lab6_2020/tree23.cpp:100-133 | a split outcome of insertion always has two non-empty halves |
| TwoThreeTree.InsCorrect | cs232_Lab6_2020/tree23.cpp:100-263 | insertion below a valid tree either leaves it as it is when the key is present, or returns a valid tree of the same height with exactly the key added, or a valid split holding exactly the old keys and the new one |
| TwoThreeTree.InteriorChildren | cs232_Lab6_2020/tree23.cpp:17-25 | a balanced interior node has all its children, each balanced |
| TwoThreeTree.RouteMembership | cs232_Lab6_2020/tree23.cpp:300-354 | in an ordered node, a key routed to a child is in the tree exactly when it is in that child |
| TwoThreeTree.LeafAdd | cs232_Lab6_2020/tree23.cpp:108-131 | a one-key leaf takes the key in order (cases 4 and 5); a two-key leaf is split (case 3); either result meets the insertion contract |
| TwoThreeTree.LeafTwoAdd | cs232_Lab6_2020/tree23.cpp:123-131 | cases 4 and 5 turn a one-key leaf into a valid two-key leaf holding exactly the old key and the new one, in order |
| TwoThreeTree.LeafThreeAdd | cs232_Lab6_2020/tree23.cpp:119-122 | case 3 splits a two-key leaf into two one-key leaves around the middle of the three keys, holding exactly the old keys and the new one |
| TwoThreeTree.Absorb | cs232_Lab6_2020/tree23.cpp:240-262 | absorbing a child's split outcome never yields an empty half |
| TwoThreeTree.AbsorbCorrect | cs232_Lab6_2020/tree23.cpp:240-262 | absorbing a correct outcome of the child on the key's route gives a correct outcome for the node |
| TwoThreeTree.FitValid | cs232_Lab6_2020/tree23.cpp:100-133 | putting back a child that took the key keeps the node valid and its height, with exactly that key added |
| TwoThreeTree.Add | cs232_Lab6_2020/tree23.cpp:100-133 | add keeps the tree valid and adds exactly the key; it returns true exactly when the key was absent and changes nothing otherwise; the height grows by at most one |
| TwoThreeTree.RootSplitGrows | cs232_Lab6_2020/tree23.cpp:146-153 | a split that reaches the root makes a new 2-node root above the halves and grows the tree by one level; otherwise the height stays |
| TwoThreeTree.Build | cs232_Lab6_2020/tree23.cpp:100-133 | adding keys one by one to an empty tree keeps the tree valid at every step |
| TwoThreeTree.BuildKeys | cs232_Lab6_2020/tree23.cpp:100-133 | the tree built by adding keys one by one holds exactly the keys added |
| TwoThreeTree.Traversal | cs232_Lab6_2020/tree23.cpp:357-369 | the slots RecInOrderTrFtn visits, empty second slots included; TraversalPresent states that the present ones are the in-order keys |
| TwoThreeTree.InOrder | cs232_Lab6_2020/tree23.cpp:357-369 | the in-order key sequence; InOrderSorted states it lists exactly the keys, ascending |
| TwoThreeTree.TraversalPresent | cs232_Lab6_2020/tree23.cpp:357-369 | leaving out the empty second slots, the traversal is the in-order key sequence |
| TwoThreeTree.InOrderSorted | cs232_Lab6_2020/tree23.cpp:357-369 | the in-order key sequence lists exactly the tree's keys in strictly ascending order |
| TwoThreeTree.FirstThreeAdds | cs232_Lab6_2020/tree23.cpp:430-450 | adding 190, 30, 100 splits the leaf and makes 100 the root; the traversal shows 30, an empty slot, 100, 190 and two empty slots |
| SplayTree.InOrder | cs232_Lab7_2020/splay.h:175-184 | the symmetric order InOrder visits; AtKeyInOrder, InsertInOrder and SearchFindsPresentKeys state how the operations act on it |
| SplayTree.ReplaceInOrder | cs232_Lab7_2020/splay.h:216-231 | hooking a subtree with the same symmetric order back into its place keeps the whole tree's symmetric order |
| SplayTree.AtKeyInOrder | cs232_Lab7_2020/splay.h:175-184 | the key of any node reached from the root is among the keys of the traversal |
| SplayTree.RotateR | cs232_Lab7_2020/splay.h:233-239 | rotateR lifts the left child to the top, keeps its left subtree, and keeps the symmetric order |
| SplayTree.RotateL | cs232_Lab7_2020/splay.h:241-247 | rotateL lifts the right child to the top, keeps its right subtree, and keeps the symmetric order |
| SplayTree.RotationsInverse | cs232_Lab7_2020/splay.h:233-247 | rotateL undoes rotateR and rotateR undoes rotateL |
| SplayTree.Lift | cs232_Lab7_2020/splay.h:216-247 | rotating a node up moves it one level up its path and keeps the symmetric order |
| SplayTree.LiftParentKeepsChild | cs232_Lab7_2020/splay.h:259-263 | in a zig-zig configuration, rotating the parent up keeps the node as that parent's child on the same side |
| SplayTree.FullSplay | cs232_Lab7_2020/splay.h:286-322 | fullsplay brings the node to the root and keeps the symmetric order |
| SplayTree.SemiSplay | cs232_Lab7_2020/splay.h:249-283 | semisplay keeps the symmetric order, and on a path without zig-zig steps brings the node to the root |
| SplayTree.SemiSplayAlternatingIsFull | cs232_Lab7_2020/splay.h:249-322 | on a path without zig-zig steps, semisplay and fullsplay give the same tree |
| SplayTree.BstInsert | cs232_Lab7_2020/splay.h:350-367 | the descent of insert attaches a new leaf node holding k and adds exactly k to the keys |
| SplayTree.BstInsertRoute | cs232_Lab7_2020/splay.h:350-356 | the descent goes left exactly where k is smaller than the node's key, and ends at an empty slot of the old tree |
| SplayTree.SortedInsertKeepsSorted | cs232_Lab7_2020/splay.h:346-369 | the reference insertion keeps a sorted sequence sorted and adds exactly k |
| SplayTree.BstInsertInOrder | cs232_Lab7_2020/splay.h:350-367 | on a sorted tree the descent puts k where the reference insertion puts it: after equal keys, before larger ones |
| SplayTree.Insert | cs232_Lab7_2020/splay.h:346-369 | insert puts k at the root and adds exactly k to the keys |
| SplayTree.InsertInOrder | cs232_Lab7_2020/splay.h:346-369 | insert keeps the symmetric order sorted and equal to the reference insertion |
| SplayTree.FindPath | cs232_Lab7_2020/splay.h:327-344 | when the descent of search stops at a node, that node holds the key |
| SplayTree.FindPathComplete | cs232_Lab7_2020/splay.h:327-344 | on a sorted tree the descent of search finds a node exactly when the key is present |
| SplayTree.Search | cs232_Lab7_2020/splay.h:327-344 | a found key is k and present, and the semisplayed tree keeps the symmetric order; a miss leaves the tree unchanged |
| SplayTree.SearchFindsPresentKeys | cs232_Lab7_2020/splay.h:327-344 | on a sorted tree, search succeeds exactly for the keys present |
| SplayTree.FirstThreeInserts | cs232_Lab7_2020/lab7Driver.cpp:79-85 | inserting 60, 80, 30 into an empty tree leaves 30 at the root with the right chain 60, 80 |
| SplayTree.InsertEighty | cs232_Lab7_2020/splay.h:286-322 | 80 goes right of 60 and one zig lifts it to the root |
| SplayTree.InsertThirty | cs232_Lab7_2020/splay.h:286-322 | 30 goes left twice and one zig-zig lifts it to the root |
| SplayTree.SearchHundred | cs232_Lab7_2020/lab7Driver.cpp:192-204 | starting from the tree the driver records after the search for 30, searching 100 is a zig-zig under semisplay: only the parent 50 rotates up, so 50 ends at the root with 100 as its right child |
| HuffmanTable.ToUpper | CS232_Proj4/Encoding.cpp:42 | toupper maps every letter to an upper-case letter, lower-case ones by the 32 offset, and leaves everything else unchanged |
| HuffmanTable.Find | CS232_Proj4/Encoding.cpp:76-82 | the search of addOrIncrease stops at the first entry holding the letter, or at the end if none does |
| HuffmanTable.AddOrIncrease | CS232_Proj4/Encoding.cpp:72-89 | addOrIncrease increments the count of the first entry with the letter and changes nothing else, or appends a new leaf with count 1 |
| HuffmanTable.UntilStar | CS232_Proj4/Encoding.cpp:39 | the part read is a prefix of the input without '*', followed in the input by '*' when shorter |
| HuffmanTable.Letters | CS232_Proj4/Encoding.cpp:40-43 | the text data kept consists of alphabetic characters only |
| HuffmanTable.CountOfAddOrIncrease | CS232_Proj4/Encoding.cpp:72-89 | addOrIncrease raises the count of the letter by one and of no other letter |
| HuffmanTable.Counts | CS232_Proj4/Encoding.cpp:39-44 | the table buildFreqTable's counting loop builds; CountsFacts, CountsCount and CountsTotal state its leaves and counts |
| HuffmanTable.CountsFacts | CS232_Proj4/Encoding.cpp:39-44 | the table built while reading holds one leaf per distinct letter, each upper case with a positive count |
| HuffmanTable.CountsCount | CS232_Proj4/Encoding.cpp:39-44 | each letter's count is its number of occurrences in either case |
| HuffmanTable.Comp | CS232_Proj4/Encoding.cpp:399-415 | comp's ordering of two nodes; CompIsKeyLess states it is the order of an independent key |
| HuffmanTable.CompIsKeyLess | CS232_Proj4/Encoding.cpp:379-415 | comp orders by count, then letters alphabetically, then '*' nodes after letters, which is a strict weak order given by an independent key |
| HuffmanTable.StarTiesUnordered | CS232_Proj4/Encoding.cpp:379-415 | two '*' nodes of equal count are unordered by comp, so the stable sort keeps the older one first |
| HuffmanTable.Insert | CS232_Proj4/Encoding.cpp:47 | one insertion step of the stable sort adds exactly the one entry |
| HuffmanTable.Sort | CS232_Proj4/Encoding.cpp:47 | list::sort(comp) is a permutation of the table |
| HuffmanTable.InsertSorted | CS232_Proj4/Encoding.cpp:47 | inserting into a sorted table keeps it sorted by comp |
| HuffmanTable.SortSorted | CS232_Proj4/Encoding.cpp:47 | list::sort(comp) leaves the table sorted by comp |
| HuffmanTable.SortOfSorted | CS232_Proj4/Encoding.cpp:127 | sorting an already sorted table leaves it as it is (the stable sort moves nothing) |
| HuffmanTable.SumOfSort | CS232_Proj4/Encoding.cpp:47 | every per-entry total is the same after sorting |
| HuffmanTable.CountsTotal | CS232_Proj4/Encoding.cpp:39-44 | the counts of the table add up to the number of letters read |
| HuffmanTable.BuildFreqTable | CS232_Proj4/Encoding.cpp:34-51 | the frequency table and text data read from the input; FreqTableFacts and HuffmanCode.FreqLetters state what they hold |
| HuffmanTable.FreqTableFacts | CS232_Proj4/Encoding.cpp:34-51 | buildFreqTable returns a sorted table of distinct upper-case leaves whose counts are the letters' occurrences before the first '*', summing to the length of the text data, which is those letters as read |
| HuffmanTable.SortKeepsDistinct | CS232_Proj4/Encoding.cpp:47 | sorting a table with distinct letters keeps them distinct |
| HuffmanTable.Merged | CS232_Proj4/Encoding.cpp:115-123 | the merged node is a '*' node over the two front entries whose count is the sum of theirs |
| HuffmanTable.MergeStep | CS232_Proj4/Encoding.cpp:115-127 | one merge step replaces the two front entries by their merged node, so the table shrinks by one |
| HuffmanTable.MergeStepPlacement | CS232_Proj4/Encoding.cpp:126-127 | push_back then sort places the merged node after every entry it does not precede, and the table stays sorted |
| HuffmanTable.MergeStepSum | CS232_Proj4/Encoding.cpp:115-127 | the total count survives a merge step |
| HuffmanTable.MergeStepMembers | CS232_Proj4/Encoding.cpp:115-127 | the entries after a merge step are the untouched ones and the merged node |
| HuffmanTable.MergeStepLetters | CS232_Proj4/Encoding.cpp:115-127 | the set of letters in the trees of the table survives a merge step |
| HuffmanTable.MergeStepFull | CS232_Proj4/Encoding.cpp:115-127 | merging Huffman trees gives Huffman trees (internal '*' nodes with two children, leaves with letters) |
| HuffmanTable.HuffTreeFromFreqTable | CS232_Proj4/Encoding.cpp:108-131 | merging until one entry is left gives a node |
| HuffmanTable.HuffTreeFacts | CS232_Proj4/Encoding.cpp:108-131 | the root's count is the table's total, its letters are the table's letters, and a table of Huffman trees gives a Huffman tree |
| HuffmanTable.LetterLeafFull | CS232_Proj4/Encoding.h:32-49 | a leaf of the frequency table is a Huffman tree holding only its letter |
| HuffmanCode.WalkAppend | CS232_Proj4/Encoding.cpp:333-351 | following a code p then q from a node is following p + q |
| HuffmanCode.GenCount | CS232_Proj4/Encoding.cpp:155-196 | recGenHuffTable emits one entry per letter node, and in a Huffman tree those are exactly its leaves |
| HuffmanCode.RecGen | CS232_Proj4/Encoding.cpp:155-168 | the entries recGenHuffTable emits below a node; GenSplit, GenEntry, GenLetters and GenPrefixFree state what they are |
| HuffmanCode.GenHuffTable | CS232_Proj4/Encoding.cpp:189-196 | the code table of a tree; GenHuffTableFacts states it is prefix free, one entry per leaf, each code leading to its letter |
| HuffmanCode.GenSplit | CS232_Proj4/Encoding.cpp:155-168 | each entry of a node's table comes from the node itself, or from the table of its 0 or 1 subtree with that bit appended to the code |
| HuffmanCode.GenEntry | CS232_Proj4/Encoding.cpp:155-168 | each code extends the code of the node it came from and is made of bits; following its new bits from the node reaches a node holding the entry's letter |
| HuffmanCode.GenLetters | CS232_Proj4/Encoding.cpp:155-168 | the letters of the generated table are exactly the letters of the tree |
| HuffmanCode.PrefixFreeJoin | CS232_Proj4/Encoding.cpp:163-166 | the tables of the 0 subtree and the 1 subtree are prefix free together |
| HuffmanCode.GenPrefixFree | CS232_Proj4/Encoding.cpp:155-168 | the table of a Huffman tree is prefix free: no code is a prefix of another |
| HuffmanCode.GenHuffTableFacts | CS232_Proj4/Encoding.cpp:189-196 | for a Huffman tree with two or more letters, genHuffTable gives a prefix-free table with one entry per leaf and exactly the tree's letters, each code a non-empty bit string that leads from the root to its letter |
| HuffmanCode.InsertLetter | CS232_Proj4/Encoding.cpp:294-316 | insertLetterNode always yields a node, creating '*' nodes for missing links |
| HuffmanCode.InsertLetterEnd | CS232_Proj4/Encoding.cpp:294-316 | following the code in the result reaches a new childless node holding the letter |
| HuffmanCode.InsertLetterPath | CS232_Proj4/Encoding.cpp:294-316 | on the way there, existing nodes keep their letters and missing ones appear as '*' nodes |
| HuffmanCode.InsertLetterAside | CS232_Proj4/Encoding.cpp:294-316 | every bit code that parts from the inserted one leads where it led before |
| HuffmanCode.InsertLetterBelow | CS232_Proj4/Encoding.cpp:294-316 | there is nothing below the new letter node |
| HuffmanCode.InsertKeepsRebuilt | CS232_Proj4/Encoding.cpp:261-275 | inserting a new non-empty bit code keeps every earlier entry decodable, adds the new one, and creates no letter node off the table's codes |
| HuffmanCode.OldEntryKept | CS232_Proj4/Encoding.cpp:294-316 | an entry that decoded before an insertion of a code that does not extend it still decodes after |
| HuffmanCode.RebuildFrom | CS232_Proj4/Encoding.cpp:261-275 | rebuilding from a node always yields a node |
| HuffmanCode.StarNodeRebuilt | CS232_Proj4/Encoding.cpp:265 | the fresh '*' root decodes the empty table |
| HuffmanCode.RebuildDecodes | CS232_Proj4/Encoding.cpp:261-275 | HuffTree_from_HuffTable on a prefix-free table of non-empty bit codes gives a tree in which every entry's code leads to its letter |
| HuffmanCode.CodeOf | CS232_Proj4/Encoding.cpp:220-242 | the code encodeData writes for one letter, the first entry's; FindEntry and DecodeEncoded state what it finds and that it decodes back |
| HuffmanCode.EncodeData | CS232_Proj4/Encoding.cpp:220-242 | the bit string encodeData writes for a text; DecodeEncoded and RoundTrip state that decoding it gives the text upper-cased |
| HuffmanCode.Decode | CS232_Proj4/Encoding.cpp:333-351 | decodeData's walk from the root; DecodeOneCode, DecodeEncoded and RoundTrip state what it outputs |
| HuffmanCode.HuffTreeFromHuffTable | CS232_Proj4/Encoding.cpp:261-275 | the tree rebuilt from a code table; RebuildDecodes and TableDecodes state that every entry's code leads to its letter |
| HuffmanCode.FindEntry | CS232_Proj4/Encoding.cpp:220-242 | encodeData's lookup finds the first entry with the letter, or reports that no entry has it |
| HuffmanCode.DecodeOneCode | CS232_Proj4/Encoding.cpp:333-351 | decoding an entry's code from any point along it outputs its letter and continues at the root with the rest |
| HuffmanCode.DecodeEncoded | CS232_Proj4/Encoding.cpp:220-351 | in a tree where every entry decodes, decodeData of encodeData of a text whose upper-cased letters all have entries is the text upper-cased |
| HuffmanCode.UpperAll | CS232_Proj4/Encoding.cpp:42 | the upper-cased text has the same length and each character upper-cased |
| HuffmanCode.CountsLetters | CS232_Proj4/Encoding.cpp:39-44 | the letters of the frequency table are the upper-cased letters of the text read |
| HuffmanCode.HuffRootIsMerged | CS232_Proj4/Encoding.cpp:111-131 | a table of two or more entries merges into a '*' root with two children |
| HuffmanCode.FreqLetters | CS232_Proj4/Encoding.cpp:34-51 | the frequency table has a leaf for exactly the upper-cased letters read before the first '*' |
| HuffmanCode.FreqTree | CS232_Proj4/Encoding.cpp:108-131 | for a text with at least two distinct letters, the Huffman tree is full and holds exactly the text's upper-cased letters |
| HuffmanCode.DataLetters | CS232_Proj4/Encoding.cpp:39-44 | the upper-cased form of every character of the text data is among the upper-cased letters read before the first '*', which FreqLetters shows are exactly the table's letters |
| HuffmanCode.TableDecodes | CS232_Proj4/Encoding.cpp:189-275 | rebuilding from the table of a Huffman tree gives a tree in which every entry's non-empty code leads to its letter |
| HuffmanCode.RoundTrip | CS232_Proj4/Encoding.cpp:34-351 | for any input with at least two distinct letters before the first '*': build the table, the tree and the code table, encode the text data, rebuild the tree from the code table and decode, and the result is the text data upper-cased |

## Left out

- Key 0 as an empty slot. The 2-3-4 and 2-3 trees of the original mark an empty key slot with 0 (NULL), so a key 0 cannot be stored there. This applies to 234_tree.h:15-33 and to the case-A root test of tree23.cpp. The model uses node kinds instead and admits every integer key.
- Parent pointers, node allocation and deletion, and destructors (`destroy`, `delaux`, copy constructors, assignment): the trees are values here, so there is nothing to link or free. `makeTreeNode` becomes the datatype constructors and `leafNode` the `IsLeaf` predicate; `continueRotation` is part of `Lift`.
- Printing and file or console I/O: the tree drawings and printers (`treeGraph`, `InOrderPrint`, `posOf`, the Graph's `drawGraph`), the callback traversals `preord`/`postord` of the 2-3-4 tree, the Huffman file readers and writers, and the drivers' menus. Where a driver's output is recorded, a lemma states the resulting tree.
- The Huffman input stream becomes a character sequence. A stream without '*' makes the original loop forever at end of file; here reading stops at the end of the sequence.
- HuffmanTable.HuffTreeFromFreqTable requires a non-empty table, because the original takes the front of an empty list (undefined behaviour) when the input has no letters.
- HuffmanCode.RoundTrip requires at least two distinct letters. With a single letter the tree is one leaf and genHuffTable writes its letter, an empty code and a trailing '*'; the original then reads that '*' as the letter's code, because `>>` skips the whitespace, and so encodes each letter as '*', rebuilds a '*' root whose right link holds the letter, and decodes each '*' by going right. The model drops both the trailing '*' and the whitespace skipping, so in this case its code is empty and the text is not recovered.
- HuffmanCode.Decode returns None where the original would follow a null link (a bit string not produced by the matching table); in the original this is undefined behaviour.
- Huffman file handling: the stream reading in `buildFreqTable` and `HuffTree_from_HuffTable`, the file writes and the trailing '*' of `genHuffTable`, the seek-based table lookup of `encodeData`, `treeGraph` and `freeTree`. The code table is a sequence of (letter, code) entries, the encoded and decoded data are character sequences, and the lookup is a search of that sequence.
- GraphAdt: the implementations of the Graph ADT (myGraphADT.t) are not part of this model. Each operation follows its declaration in myGraphADT.h and the codes the driver reads in main.cpp.
- GraphAdt.ShortestDistance takes the final distance as a parameter, since the shortest-path algorithm itself is not part of this model. The traversals and path algorithms (`BFTraversal`, `DepthFirstTraversal`, `DFTraversal`, `mst`, `FordShortestPaths`), the printers (`SimplePrintGraph`, `printPath`, `printMst`, `printDeQ`) and graph input (`GetGraph`, `inputFile`) are left out for the same reason.
- GraphAdt.AddBiDirEdge: with an endpoint missing, the model reports -3 and changes nothing. Nothing in the header or the driver says what the original returns then.
- GraphAdt.AddUniEdge: the EndpointMissing outcome and its code -2 are the model's own. Neither the header nor the driver says what AddUniEdge does when a vertex is absent; the model adds nothing and reports this outcome.
- GraphAdt: the vertices are a map keyed by name, so the insertion order of the original's vertex vector is not kept; no modelled result depends on it.
- GraphAdt.AddUniEdge, DeleteUniEdge, AddBiDirEdge and DeleteBiDirEdge require v1 != v2 because the driver refuses a pair of equal vertices before calling them (main.cpp:177-190). Self-loops are not modelled.
- GraphAdt: vertex flags, predecessors and distances are kept at their defaults, and edge weights are integers as in the driver's `Graph<string,int>`. A successful operation is reported as 0; the original only promises a value other than -1.
- C++ `int` and `double` overflow and rounding: counts, keys and the complex parts are unbounded integers, and distances are reals.
- MergeSort.Merge2, MergeSort2: the two C++ buffers are sequences passed in and returned, not arrays written in place. Each call returns the new contents of every buffer it writes, and the contracts state which positions are unchanged, which an in-place frame would otherwise say.
- Lab 1's external sort is left out: `readBlockFromFile`, `storeToFile`, `setupFiles`, `closeFiles`, `splitFiles`, `mergeRuns`, `mergeFiles`, `mergeFileRuns` and the menu. They are driven by end-of-file behaviour, and only the in-memory sort is modelled. The buffer msSort allocates is never freed; memory is not modelled.
- SplayTree: the sortedness of the symmetric order is non-strict, because insert sends duplicates to the right, so a repeated key is stored twice.
- TwoThreeFourTree.Add and TwoThreeTree.Add report whether the key was new. They do not model the NULL-slot representation the original uses to compare keys with 0.
- TwoThreeTree.Ins states only that a split has two non-empty halves; its full contract is TwoThreeTree.InsCorrect.
- HuffmanCode.InsertLetter, RebuildFrom and HuffTreeFromHuffTable state only that the result is a node; what they build is stated by InsertLetterEnd, InsertLetterPath, InsertLetterAside, InsertLetterBelow and RebuildDecodes.
- HuffmanTable.HuffTreeFromFreqTable states only that the result is a node; the rest is stated by HuffTreeFacts.
- ComplexProduct.ComputeComplex: the original multiplies 32-bit `int`s, whose overflow is not modelled; the parts here are unbounded integers.

## Findings

| source | as written | input that shows it | evidently intended | confidence | as-written member | corrected member |
|---|---|---|---|---|---|---|
| cs232_Lab1_2020/cs232_lab1_ZHONG.cpp:317-337 | msSort(a, n) calls mergesort2(copy, a, 0, n - 1) with no check on n, and mergesort2 recurses on (l, mid) and (mid + 1, r) with mid = (l + r) / 2 truncated | n = 0: the range (0, -1) leads to (1, -1), then (1, 0), then (1, 0) again without end, until the stack overflows | an empty or one-element block is already sorted and msSort returns it unchanged; the defect is latent, since the program's only calls (lines 282 and 287) pass MAX_MEM_SIZE = 20 (line 16) | not executed | MergeSort.EmptyBlockRecursesForever | MergeSort.MsSort |
