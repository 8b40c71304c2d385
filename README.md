# JPEG encoder core in Dafny

This project models the computational core of a small C# JPEG encoder and
proves properties of the model. The core has three parts.

- **A binary-heap priority queue** (`JPEGEncoder/PriorityQueue.cs`).
  - It keeps its entries in a growable list.
  - `Enqueue` sifts the new entry up, and `Dequeue` moves the last entry to the root and sifts it down.
  - The entries are compared by a comparer, which the `isDescending` flag reverses; the default is descending.
  - The source has two near-identical classes: one compares the elements themselves, the other stores a (key, value) pair whose key is computed once, at enqueue time, by a key selector. Both are the one class `PriorityQueues.PriorityQueue`; the plain queue is the keyed one with the identity as key selector.
  - The list is a `seq` field that the methods reassign.
  - The proved facts are these: the heap order is an invariant, the stored bag gains or loses exactly one entry per call, and `Dequeue`/`Peek` give an entry that no stored entry beats. Draining a min-first integer queue hands out its entries in non-decreasing key order.
- **Huffman coding** (`JPEGEncoder/Huffman.cs`).
  - `Encode` counts the items, seeds a min-first queue with one leaf per distinct item, merges the two lightest trees until one is left, assigns codes by an explicit stack walk and concatenates the codes of the input.
  - The tree is the datatype `HuffmanTrees.Tree`; the source's `Node` objects are only written once, by their parent, so a value is enough.
  - Each of the source's loops is a method with loop invariants, proved against a function or a predicate on trees.
  - The proved facts are these:
    - the counts are the occurrences;
    - a merge's weight is the sum of its children's, lighter child first;
    - every merge round takes an entry of smallest key and then the smallest of the rest, so the final tree is one that lightest-first merging builds from the counted leaves;
    - the final tree holds every item exactly once, with its count;
    - every code is the item's root-to-leaf path;
    - the codes are prefix-free;
    - with two or more distinct items (a merge node at the root), decoding the output with the same tree gives the input back;
    - the output length is the sum over items of count times code length;
    - a single distinct item gives the empty string;
    - empty input fails.
- **The Matrix struct** (`JPEGEncoder/CodingUnit.cs`).
  - A `double[,]` wrapped with an indexer, transposition, a byte clamp, the zig-zag read-out of an 8x8 block, elementwise and scalar arithmetic, a square matrix product and equality.
  - The class `Matrices.Matrix` holds the array, as the struct does; copies of the struct share it.
  - Every operation is a loop-filling method proved against a pure function on `Matrices.Grid`, the matrix's value.
  - The zig-zag scan order is the module `ZigZag`. It is proved to visit each cell of the block exactly once (64 entries), in non-decreasing diagonal order, stepping down-left on odd diagonals and up-right on even ones, from (0,0),(0,1),(1,0),(2,0) to (7,7). That is the order of ITU-T T.81, Figure A.6.

The source throws where the model returns an `Outcomes.Result`:

| Source behaviour | Model |
|---|---|
| `Dequeue` or `Peek` on an empty queue indexes an empty list | `Failure(EmptyQueue)` |
| A shape mismatch throws `InvalidOperationException` | `Failure(DimensionMismatch)` |
| `Encode` of an empty array fails in its final `Dequeue` | `Failure(EmptyQueue)` |

Callers that cannot get an error are given preconditions instead:

- the indexer, because its `ValidateIndex` result is discarded, so only the array refuses an index;
- `ZigZagRead`, which does not check the shape.

Files:

| File | Module | Contents |
|---|---|---|
| `outcomes.dfy` | `Outcomes` | the `Result`, `Option` and `Error` types |
| `priority_queue.dfy` | `PriorityQueues` | the heap |
| `huffman_tree.dfy` | `HuffmanTrees` | the code tree, its codes, decoding and the code-length sum |
| `huffman.dfy` | `Huffman` | the encoder's loops and the properties of its output |
| `zigzag.dfy` | `ZigZag` | the scan order |
| `matrix.dfy` | `Matrices` | the matrix |

## Model

| member | source | states |
|---|---|---|
| PriorityQueues.CompareInts | JPEGEncoder/PriorityQueue.cs:98 | the default comparer of integer keys: negative exactly when a < b, zero exactly when a == b |
| PriorityQueues.CompareIntsIsComparer | JPEGEncoder/PriorityQueue.cs:98 | the integer comparer is antisymmetric in sign and transitive, as the heap's proofs require of every comparer |
| PriorityQueues.PriorityQueue.constructor | JPEGEncoder/PriorityQueue.cs:97-107 | a new queue is empty and heap-ordered, and keeps the given key selector, comparer and direction (descending by default) |
| PriorityQueues.PriorityQueue.Count | JPEGEncoder/PriorityQueue.cs:163 | the count is the number of stored entries |
| PriorityQueues.PriorityQueue.Swap | JPEGEncoder/PriorityQueue.cs:151-156 | the list with the two positions exchanged and nothing else changed |
| PriorityQueues.PriorityQueue.SwapKeepsEntries | JPEGEncoder/PriorityQueue.cs:151-156 | a swap keeps the bag of entries and every stored key equal to the selector of its value |
| PriorityQueues.PriorityQueue.Enqueue | JPEGEncoder/PriorityQueue.cs:109-121 | the bag gains exactly the entry (keySelector(item), item); the count grows by one; the heap order is kept |
| PriorityQueues.PriorityQueue.SiftUpStep | JPEGEncoder/PriorityQueue.cs:113-119 | exchanging a child that comes out before its parent moves the only possible order violation one level up |
| PriorityQueues.PriorityQueue.Dequeue | JPEGEncoder/PriorityQueue.cs:123-144 | on an empty queue: Failure(EmptyQueue) and no change; otherwise: the root's value, which no stored entry beats; exactly that entry leaves the bag; the count drops by one; the heap order is kept. A one-entry queue is left empty |
| PriorityQueues.PriorityQueue.RemoveRoot | JPEGEncoder/PriorityQueue.cs:125-128 | moving the last entry to the root and dropping the last slot removes exactly the root's entry and leaves at most the root out of order |
| PriorityQueues.PriorityQueue.SiftDown | JPEGEncoder/PriorityQueue.cs:129-142 | the sift-down loop restores the heap order without changing the bag |
| PriorityQueues.PriorityQueue.BetterChildIndex | JPEGEncoder/PriorityQueue.cs:132-137 | gives a child of p that comes out no later than any child of p, and the right child only when it comes out strictly before the left one (ties go left) |
| PriorityQueues.PriorityQueue.ChosenChildIsBetter | JPEGEncoder/PriorityQueue.cs:135-137 | the child chosen that way comes out no later than its sibling |
| PriorityQueues.PriorityQueue.SiftDownStep | JPEGEncoder/PriorityQueue.cs:138-141 | exchanging a parent with its better child, when that child comes out first, moves the only possible violation one level down |
| PriorityQueues.PriorityQueue.SiftDownDone | JPEGEncoder/PriorityQueue.cs:138-139 | when the parent does not come out after its better child, the heap is ordered |
| PriorityQueues.PriorityQueue.SiftDownAtLeaf | JPEGEncoder/PriorityQueue.cs:132-134 | when the moved entry has no child, the heap is ordered |
| PriorityQueues.PriorityQueue.RootIsBest | JPEGEncoder/PriorityQueue.cs:126 | in a heap-ordered list, no entry comes out before the root |
| PriorityQueues.PriorityQueue.RootBeatsAll | JPEGEncoder/PriorityQueue.cs:126 | the root is not beaten by any entry of the bag |
| PriorityQueues.PriorityQueue.Peek | JPEGEncoder/PriorityQueue.cs:146-149 | Failure(EmptyQueue) on an empty queue; otherwise the root's value, the one the next Dequeue returns, which no entry beats; no change to the queue |
| PriorityQueues.IntQueueOrder | JPEGEncoder/PriorityQueue.cs:158-161 | with the integer comparer, the default (descending) queue puts larger keys first and isDescending == false puts smaller keys first |
| PriorityQueues.AscendingOrder | JPEGEncoder/PriorityQueue.cs:109-161 | a min-first integer queue fed 2 and 1 gives 1, then 2, then fails as empty |
| PriorityQueues.PriorityQueue.CompareReverses | JPEGEncoder/PriorityQueue.cs:158-161 | for a comparer, a comes out before b exactly when the comparer puts a first, or, on a descending queue, exactly when it puts b first (and "not after" exactly when it does not put a first) |
| PriorityQueues.DequeueLeast | JPEGEncoder/PriorityQueue.cs:123-144 | on a non-empty min-first integer queue, Dequeue hands out the value of a stored entry whose key is no larger than any stored key, and removes exactly that entry |
| PriorityQueues.DrainStep | JPEGEncoder/PriorityQueue.cs:123-144 | taking out an entry of smallest key after entries taken in key order keeps them in key order, none larger than what is left |
| PriorityQueues.DrainAscending | JPEGEncoder/PriorityQueue.cs:123-161 | dequeuing a min-first integer queue until it is empty hands out every stored entry exactly once (as a bag), in non-decreasing key order |
| HuffmanTrees.WellFormedFacts | JPEGEncoder/Huffman.cs:58-72 | a tree built from leaves and merges of disjoint trees holds each item once, and its weight is its number of occurrences |
| HuffmanTrees.Merge | JPEGEncoder/Huffman.cs:65-72 | the merge node weighs the sum of the two; its first child is no heavier than its second; the two children are the arguments, kept in order unless the second is strictly lighter |
| HuffmanTrees.MergeFacts | JPEGEncoder/Huffman.cs:65-72 | a merge's occurrences and items are those of its two children; merging disjoint well-formed trees gives a well-formed tree |
| HuffmanTrees.CodesKeys | JPEGEncoder/Huffman.cs:33-45 | the code map has exactly the tree's items as keys |
| HuffmanTrees.CodesAtNode | JPEGEncoder/Huffman.cs:39-43 | an item below the first child takes its code from there (prefix + "0"), all others from the second (prefix + "1") |
| HuffmanTrees.CodesArePaths | JPEGEncoder/Huffman.cs:39-43 | below a node coded prefix, an item's code is prefix followed by its root-to-leaf path ('0' first child, '1' second) |
| HuffmanTrees.CodeIsPath | JPEGEncoder/Huffman.cs:33-45 | each item's code is exactly its root-to-leaf path |
| HuffmanTrees.WalkPath | JPEGEncoder/Huffman.cs:40-43 | following an item's path bit by bit from the root reaches that item's leaf and leaves the rest of the bits unread |
| HuffmanTrees.PrefixFree | JPEGEncoder/Huffman.cs:35-44 | in a tree holding each item once, no item's code is a prefix of another item's code |
| HuffmanTrees.ConcatSnoc | JPEGEncoder/Huffman.cs:49-52 | appending an item to the input appends its code to the output |
| HuffmanTrees.DecodeConcat | JPEGEncoder/Huffman.cs:47-54 | decoding the concatenated codes of any sequence of a node tree's items gives the sequence back |
| HuffmanTrees.ConcatLength | JPEGEncoder/Huffman.cs:47-54 | the output length is the sum over the distinct items of count times code length |
| HuffmanTrees.SingleLeafOutput | JPEGEncoder/Huffman.cs:27-37 | a leaf root codes its item as the empty string, so the output is empty |
| Huffman.CountSymbols | JPEGEncoder/Huffman.cs:6-11 | the dictionary's keys are exactly the input's items and each count is that item's number of occurrences |
| Huffman.CountsAreData | JPEGEncoder/Huffman.cs:6-11 | occurrences equal to the counts are exactly the input's bag |
| Huffman.SeedNext | JPEGEncoder/Huffman.cs:15-18 | enqueueing the leaf of a pending counted item keeps the seeding invariant: disjoint well-formed single leaves, one per counted item taken so far |
| Huffman.SeedStart | JPEGEncoder/Huffman.cs:13-15 | before seeding, the queue is empty and every counted symbol is pending |
| Huffman.SeedOne | JPEGEncoder/Huffman.cs:15-18 | enqueueing one pending symbol's leaf keeps the seeding state, with that symbol no longer pending |
| Huffman.SeedQueue | JPEGEncoder/Huffman.cs:15-18 | after seeding, the queue holds one leaf per counted item, weighted by its count, and nothing else |
| Huffman.SeededOccurrences | JPEGEncoder/Huffman.cs:15-18 | the seeded leaves together hold each item exactly as often as it was counted |
| Huffman.MergeNext | JPEGEncoder/Huffman.cs:22-24 | taking the two dequeued trees out of the forest and putting their merge in keeps a forest of disjoint trees, with one tree fewer and the same occurrences |
| Huffman.WeightCountsOccurrences | JPEGEncoder/Huffman.cs:13 | the queue key of a well-formed tree, its Count, is the number of occurrences below it and at least 1 |
| Huffman.GreedySnoc | JPEGEncoder/Huffman.cs:20-25 | one more choice of the two lightest entries extends a run of greedy merge rounds, and its contents are the previous contents with the two replaced by their merge |
| Huffman.LeafBagAdd | JPEGEncoder/Huffman.cs:15-18 | adding a symbol adds exactly its leaf's entry to the bag of seeded leaves |
| Huffman.SeedBagStep | JPEGEncoder/Huffman.cs:15-18 | taking one symbol off the pending set adds exactly its leaf's entry to the queued leaves |
| Huffman.MergeStep | JPEGEncoder/Huffman.cs:22-24 | one round dequeues an entry e1 of smallest key and then an entry e2 of smallest key among the rest, and leaves exactly the old contents minus e1 and e2 plus the entry of their merge (keyed by its weight); the queue shrinks by one and the occurrences are unchanged |
| Huffman.MergeRound | JPEGEncoder/Huffman.cs:20-25 | one iteration of the merge loop keeps its state: the forest's occurrences, and a greedy run of rounds from the seeded contents to the current ones |
| Huffman.MergeAll | JPEGEncoder/Huffman.cs:20-25 | the merge loop ends with a single tree (none for empty input) holding all occurrences; with one tree it changes nothing; its rounds are a sequence of two-lightest choices that leads from the starting contents to the final ones |
| Huffman.ForestTake | JPEGEncoder/Huffman.cs:27 | a queued entry is a well-formed tree of the forest stored with its weight as key; the rest of the forest keeps all other occurrences |
| Huffman.SingleEntry | JPEGEncoder/Huffman.cs:27 | a bag that one removal empties held only the removed entry |
| Huffman.BuildTree | JPEGEncoder/Huffman.cs:13-27 | fails (EmptyQueue) exactly when nothing was counted; otherwise a well-formed tree whose occurrences are the counts; a leaf when one item was counted; and the tree is the one a run of two-lightest merge rounds leaves from the counted leaves (GreedyTree) |
| Huffman.WalkStart | JPEGEncoder/Huffman.cs:29-32 | the walk starts with the root on the stack, code "", and an empty code map |
| Huffman.PopLeaf | JPEGEncoder/Huffman.cs:34-37 | a popped leaf's item is not yet in the code map (so Add does not throw), and adding it with its code keeps the walk invariant |
| Huffman.PopNode | JPEGEncoder/Huffman.cs:38-44 | pushing a popped node's children with code + "0" and code + "1" keeps the walk invariant |
| Huffman.ChildrenOnPath | JPEGEncoder/Huffman.cs:40-41 | if a node's code is its path from the root, so are its children's codes |
| Huffman.LeafPopShrinks | JPEGEncoder/Huffman.cs:34-37 | popping a leaf shrinks what is left to walk |
| Huffman.NodePopShrinks | JPEGEncoder/Huffman.cs:38-44 | replacing a node by its two children shrinks what is left to walk |
| Huffman.WalkDone | JPEGEncoder/Huffman.cs:33-45 | when the stack is empty, the code map is the tree's code map |
| Huffman.AssignCodes | JPEGEncoder/Huffman.cs:29-45 | the stack walk's code map gives every item of the tree its root-to-leaf path, and no other key |
| Huffman.Concatenate | JPEGEncoder/Huffman.cs:47-54 | the output is the input's codes concatenated in input order |
| Huffman.CountsAreCounted | JPEGEncoder/Huffman.cs:6-11 | a dictionary with the input's items as keys and their occurrence counts as values is the input's count map |
| Huffman.Encode | JPEGEncoder/Huffman.cs:4-55 | fails (EmptyQueue) exactly on empty input; otherwise the output is the concatenated codes of the input under a well-formed tree whose occurrences are the input's, built by two-lightest merge rounds from the leaves of the input's counts, which codes every input item; one distinct item gives "" |
| Huffman.RootWeight | JPEGEncoder/Huffman.cs:20-27 | the root of the code tree weighs the input's length |
| Huffman.TwoItemsGiveNode | JPEGEncoder/Huffman.cs:65-70 | with two different items the root is a merge node and every input item has a non-empty code |
| Huffman.EncodingRoundTrip | JPEGEncoder/Huffman.cs:47-54 | when the tree's root is a node (two or more distinct items), decoding the output with the code tree gives the input back |
| Huffman.EncodingPrefixFree | JPEGEncoder/Huffman.cs:35-44 | the codes of two different input items are not prefixes of one another |
| ZigZag.Visit | JPEGEncoder/CodingUnit.cs:150-156 | the cell read at (i, j) lies on diagonal i, with row j on odd diagonals and column j on even ones (the swap) |
| ZigZag.DiagonalCells | JPEGEncoder/CodingUnit.cs:147-156 | the t-th cell of diagonal i is on diagonal i, at offset Lo(i) + t as row (odd i) or column (even i) |
| ZigZag.DiagonalPrefixStep | JPEGEncoder/CodingUnit.cs:147-158 | one inner step skips an offset whose other coordinate is out of the block and appends the swapped-or-not cell otherwise |
| ZigZag.DiagonalPrefixCount | JPEGEncoder/CodingUnit.cs:145-159 | the inner loop visits exactly the block's cells on diagonal i below the offset bound, each once |
| ZigZag.DiagonalCount | JPEGEncoder/CodingUnit.cs:145-159 | a whole diagonal visits each block cell on it exactly once and nothing else |
| ZigZag.ScanPrefixCount | JPEGEncoder/CodingUnit.cs:143-160 | after n diagonals, each block cell on one of them has been visited exactly once and no other cell at all |
| ZigZag.ZigZagCoversBlock | JPEGEncoder/CodingUnit.cs:143-160 | the scan visits every cell of the 8x8 block exactly once and nothing outside it |
| ZigZag.ScanPrefixTriangle | JPEGEncoder/CodingUnit.cs:143-160 | the first n <= 8 diagonals hold 1 + 2 + ... + n cells |
| ZigZag.ScanPrefixCorner | JPEGEncoder/CodingUnit.cs:143-160 | after n >= 8 diagonals, 64 - Triangle(15 - n) cells have been read |
| ZigZag.ZigZagLength | JPEGEncoder/CodingUnit.cs:143-161 | the scan has exactly 64 cells |
| ZigZag.DiagonalOnDiagonal | JPEGEncoder/CodingUnit.cs:145-156 | each cell of diagonal i has row + column == i |
| ZigZag.ScanPrefixSorted | JPEGEncoder/CodingUnit.cs:143-147 | after n diagonals, row + column is below n and non-decreasing along the scan |
| ZigZag.ZigZagSorted | JPEGEncoder/CodingUnit.cs:143-147 | row + column never decreases along the scan |
| ZigZag.DiagonalSteps | JPEGEncoder/CodingUnit.cs:150-156 | within an odd diagonal the row grows by one and the column shrinks by one; within an even one the reverse |
| ZigZag.ScanPrefixSteps | JPEGEncoder/CodingUnit.cs:150-156 | consecutive cells of the scan on one diagonal make that step |
| ZigZag.ZigZagSteps | JPEGEncoder/CodingUnit.cs:150-156 | the whole scan moves down-left on odd diagonals and up-right on even ones |
| ZigZag.ScanPrefixGrows | JPEGEncoder/CodingUnit.cs:143 | the cells read after m diagonals are a prefix of those read after n >= m |
| ZigZag.FirstDiagonals | JPEGEncoder/CodingUnit.cs:143-158 | the first three diagonals are (0,0),(0,1),(1,0),(2,0),(1,1),(0,2) |
| ZigZag.ZigZagStart | JPEGEncoder/CodingUnit.cs:143-158 | the scan starts (0,0),(0,1),(1,0),(2,0) |
| ZigZag.ZigZagEnd | JPEGEncoder/CodingUnit.cs:143-160 | diagonal 15 adds nothing and the scan ends at (7,7) |
| Matrices.Matrix.constructor | JPEGEncoder/CodingUnit.cs:3-6 | the matrix wraps the given array itself, shared with the caller |
| Matrices.Matrix.Zero | JPEGEncoder/CodingUnit.cs:8-11 | a fresh h x w matrix of zeros |
| Matrices.Matrix.Value | JPEGEncoder/CodingUnit.cs:13-15 | the value has the array's height and width and its entries |
| Matrices.Matrix.Height | JPEGEncoder/CodingUnit.cs:14 | the height is the number of rows of the matrix's value |
| Matrices.Matrix.Width | JPEGEncoder/CodingUnit.cs:15 | the width is the length of every row of the matrix's value |
| Matrices.Matrix.Get | JPEGEncoder/CodingUnit.cs:77-83 | the indexer's getter gives entry (h, w) of the value, for indices the array accepts |
| Matrices.Matrix.Set | JPEGEncoder/CodingUnit.cs:84-90 | the setter changes entry (h, w) to the new value and nothing else |
| Matrices.Transpose | JPEGEncoder/CodingUnit.cs:98-109 | the transpose's height is the width and its width the height, with entry (w, h) equal to entry (h, w) |
| Matrices.TransposeTwice | JPEGEncoder/CodingUnit.cs:98-109 | transposing twice gives the original value back, so it is == to the original |
| Matrices.Matrix.GetTranspose | JPEGEncoder/CodingUnit.cs:98-109 | a fresh matrix whose value is the transpose |
| Matrices.ToByte | JPEGEncoder/CodingUnit.cs:117-121 | below 0 gives 0, above 255 gives 255, in between the truncation b with b <= x < b + 1 |
| Matrices.Matrix.GetBytes | JPEGEncoder/CodingUnit.cs:111-125 | a fresh byte array of the same shape with every entry clamped by ToByte |
| Matrices.Matrix.ZigZagRead | JPEGEncoder/CodingUnit.cs:140-162 | on a matrix of at least 8 x 8: the 64 entries at the zig-zag cells, in zig-zag order |
| Matrices.Matrix.ReadDiagonal | JPEGEncoder/CodingUnit.cs:145-159 | one pass of the outer loop appends the entries at diagonal i's cells, in order |
| Matrices.SkipStep | JPEGEncoder/CodingUnit.cs:148 | an inner step whose other coordinate is out of the block adds nothing |
| Matrices.ReadStep | JPEGEncoder/CodingUnit.cs:150-158 | an inner step inside the block appends the entry at the (possibly swapped) cell |
| Matrices.Elementwise | JPEGEncoder/CodingUnit.cs:180-270 | succeeds exactly when the shapes agree, else DimensionMismatch; the result has the shape, with entry (h, w) equal to a[h,w] op b[h,w] |
| Matrices.Matrix.Combine | JPEGEncoder/CodingUnit.cs:180-270 | +, -, / and MultiplyElements: a fresh matrix with the elementwise value when the shapes agree, DimensionMismatch otherwise |
| Matrices.SubtractUndoesAdd | JPEGEncoder/CodingUnit.cs:180-224 | (a + b) - b == a for operands of one shape |
| Matrices.DivideUndoesMultiply | JPEGEncoder/CodingUnit.cs:226-270 | MultiplyElements(a, b) / b == a when b has no zero entry |
| Matrices.Product | JPEGEncoder/CodingUnit.cs:272-298 | succeeds exactly for two square matrices of one size, else DimensionMismatch; entry (h, w) is the sum over k of a[h,k] * b[k,w] |
| Matrices.ProductEntries | JPEGEncoder/CodingUnit.cs:280-292 | a grid of those dot products is the product |
| Matrices.ProductIdentity | JPEGEncoder/CodingUnit.cs:272-298 | the identity matrix is neutral for the product on both sides |
| Matrices.Matrix.Multiply | JPEGEncoder/CodingUnit.cs:272-298 | a fresh matrix with the product's value for two square matrices of one size, DimensionMismatch otherwise |
| Matrices.Matrix.ProductRow | JPEGEncoder/CodingUnit.cs:282-290 | the row loop writes row h of the product and leaves the other rows alone |
| Matrices.Matrix.RowTimesColumn | JPEGEncoder/CodingUnit.cs:284-288 | the innermost loop sums a[h,k] * b[k,w] over all k |
| Matrices.Scalar | JPEGEncoder/CodingUnit.cs:300-359 | the scalar operators keep the shape and apply the scalar to every entry |
| Matrices.ScalarInverses | JPEGEncoder/CodingUnit.cs:300-359 | (g + s) - s == g, and (g * s) / s == g for s != 0 |
| Matrices.Matrix.CombineScalar | JPEGEncoder/CodingUnit.cs:300-359 | a fresh matrix with the scalar operator's value |
| Matrices.Matrix.Equal | JPEGEncoder/CodingUnit.cs:361-384 | true exactly when the shapes agree and every entry agrees, i.e. when the two values are equal |
| Matrices.Matrix.NotEqual | JPEGEncoder/CodingUnit.cs:386-389 | true exactly when the values differ |

## Left out

- Image loading and saving, the DCT basis (cosines and square roots), the block tiling loop, the quantisation tables and console and file output in `JPEGEncoder/Program.cs`: these are I/O and floating-point numerics, and Program.cs is not part of this model.
- IEEE doubles: matrix entries are exact reals, so rounding, infinities and NaN are not modelled.
- Matrices.Matrix.Combine: division requires every divisor entry to be non-zero, because the source's division by zero gives an infinity or NaN, which reals do not have.
- Matrices.Elementwise: the same requirement on a divisor of the same shape, for the same reason.
- Matrices.Matrix.CombineScalar: division requires a non-zero scalar, for the same reason.
- Matrices.Scalar: the same requirement on the scalar, for the same reason.
- Matrices.Matrix.Zero: takes natural sizes; the source's `new double[h, w]` throws on a negative size, a case the model leaves out.
- `Max`, `Min` and `GetBytesForImg` (rescaling through the `double.MinValue`/`MaxValue` sentinels): floating-point only, and never called by the encoder.
- `Round` (banker's rounding) and `Abs`: floating-point maps with nothing structural to prove.
- `ToString`: text formatting.
- The `IEnumerable` enumerators of both queues: iteration over the list in storage order, which callers in the core do not use.
- Huffman optimality (minimal weighted code length) is not proved.
- Huffman.SeedQueue: enqueues the counted items in an order left open, because the order of the source's dictionary enumeration is not specified.
- Huffman.Encode: states the output for some tree that two-lightest merge rounds can build from the input's counts rather than for the one exact tree. The exact tree depends on the dictionary's enumeration order, which fixes the order of the seeded leaves, and the heap then breaks ties between equal keys by position; neither is modelled, so any choice of equally light entries is admitted.
- Huffman.BuildTree: the same freedom among equally light entries. Different tie choices can give different trees and code lengths, but every admitted tree is built by lightest-first merges.
- PriorityQueues.PriorityQueue.constructor: requires a lawful comparer (`IsComparer`: the sign of compare(a, b) is the opposite of that of compare(b, a), and "at most" is transitive); the source accepts any `IComparer<K>`, whose contract expects such an order, and the core passes only `Comparer<long>.Default`.
- PriorityQueues.PriorityQueue: keys are limited to types without allocation (`K(!new)`), because the comparer laws quantify over keys; the source accepts any key type, reference types included, though the encoder only uses `long` keys.
- Huffman.Encode: symbols (and those of Huffman.BuildTree) are limited to types without allocation (`T(==, !new)`), because the greedy-tree property quantifies over sequences of queue entries; the source accepts any non-null symbol type, though the encoder's symbols are values.
- The source's `long` counts and `int` indices are unbounded integers; no input of the encoder comes near their limits.
- Matrices.Matrix.ZigZagRead: returns the 64 values as a sequence; the source copies its list into a fresh array, which the model does not allocate.
- The struct copy semantics of `Matrix`: a copy shares the array, which the model expresses by sharing the `data` object; the model does not distinguish two struct values over one array.
