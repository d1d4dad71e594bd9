# Red-black tree insertion (rb.cpp, namespace `_nmsp1`)

This project models `RBTree<T>` from `rb.cpp` in Dafny and proves its insertion correct.

- **Nodes.** The nodes live in an arena: `RBTree.nodes` is a sequence of `RBNode` records (key, left child, right child, parent, colour). Every link is an index into the arena, and `Nil` (-1) stands for `nullptr`. `RBTree.root` is the tree's root link.
- **Operations.** They change the arena in place, as the C++ code changes the heap:
  - the four rotations;
  - the sibling lookup `getBrotherNode`;
  - the search and attach of `InsertElem`;
  - the fix-up loop of `BalanceTree`.
- **Ghost state.** Two ghost sequences run beside the arena: the key set of each node's subtree and the black height below each node. With them, every invariant of the tree is local to one node and its neighbours.
- **Abstraction.** `RBArena.Abs` reads the arena as a value of `RedBlackTree.Tree = Leaf | Node(red, left, key, right)`. The header properties (a)-(d) of rb.cpp:4-7 are stated on that value:
  - (a) every node red or black, and a black root;
  - (b) null leaves counted black;
  - (c) no red node with a red child;
  - (d) one black count on every downward path.
- **Search order.** The keys are also ordered as in a binary search tree: the descent of rb.cpp:254-269 goes right for a larger key and left otherwise.

Files, in dependency order:

- `tree.dfy` (`RedBlackTree`):
  - the `Tree` value and the red-black predicates;
  - the four rotations as functions on trees;
  - the path and height facts.
- `arena.dfy` (`RBArena`):
  - the `RBNode` record and the per-node invariants (`Structure`, `Colours`);
  - the abstraction `Abs` and the search path of an insertion.
- `rotate.dfy` (`RBRotate`): the rotations on the arena, as record changes, with their order and link-consistency lemmas.
- `balance.dfy` (`RBBalance`): the colour lemmas of the two fix-up cases (red uncle: recolour; black or missing uncle: rotate, repaint, splice).
- `insert.dfy` (`RBInsert`): the attach step, and the search loop as written (see Findings).
- `rbtree.dfy` (`RB`): the class `RBTree` with the imperative methods.

Keys are `int`; the source is a template over any `T` with `==` and `>`.

Where the model departs from the code as written:

- **Allocation.** `InsertElem` allocates the new node inside the descent loop (rb.cpp:272-277). The model allocates it once, after the search has reached null (see Findings).
- **Colour reads.** `isRed` is a `bool` field (rb.cpp:165), but rb.cpp:309 and rb.cpp:336 call it as `isRed()`. The model reads the field.
- **Rotation at the root.** The rotate-and-recolour block runs only when the grandparent has a parent (rb.cpp:370-414). When the grandparent is the root, as written nothing changes: rb.cpp:416-418 assigns the old root to `root` again, and `while (true)` repeats the same step on the same state forever. The model rotates and recolours in both cases, then splices the new subtree top into the grandparent's old place, so at the root it replaces a loop that never ends.
- **Loop exit.** After the splice (rb.cpp:416-427), `while (true)` goes round again. The model leaves the loop after a rotation case, as the case comments at rb.cpp:278-289 describe.
- **Null checks.** The model shows that the checks for a null grandparent (rb.cpp:330-333) and for a null parent (rb.cpp:354-357) can never fire; they are assertions there.
- **Sign.** The fall-through `sign == 0` branch of the splice (rb.cpp:428-431) cannot be reached, because the sign is only read when the grandparent has a parent.
- **Insert overloads.** The public `InsertElem(e)` (rb.cpp:244-247) only forwards `root` to the second overload, so the two are one method here.

## Model

| member | source | states |
|---|---|---|
| RedBlackTree.RotateLeft | rb.cpp:448-467 | The right child becomes the root, with the old root as its left child holding the old right child's left subtree. The in-order key sequence and the key set are unchanged. |
| RedBlackTree.RotateRight | rb.cpp:470-489 | Mirror of RotateLeft: the same in-order sequence and key set. |
| RedBlackTree.RotateLeftRight | rb.cpp:492-528 | The left child's right child becomes the root. The in-order sequence and keys are unchanged. |
| RedBlackTree.RotateRightLeft | rb.cpp:531-569 | The right child's left child becomes the root. The in-order sequence and keys are unchanged. |
| RedBlackTree.RotateLeftRightIsComposite | rb.cpp:505-527 | The left-right rotation equals a left rotation about the left child followed by a right rotation about the root. |
| RedBlackTree.RotateRightLeftIsComposite | rb.cpp:546-568 | The right-left rotation equals a right rotation about the right child followed by a left rotation about the root. |
| RedBlackTree.RotateLeftKeepsBST | rb.cpp:448-467 | A left rotation of a search tree is a search tree. |
| RedBlackTree.RotateRightKeepsBST | rb.cpp:470-489 | A right rotation of a search tree is a search tree. |
| RedBlackTree.RotateLeftRightKeepsBST | rb.cpp:492-528 | A left-right rotation of a search tree is a search tree. |
| RedBlackTree.RotateRightLeftKeepsBST | rb.cpp:531-569 | A right-left rotation of a search tree is a search tree. |
| RedBlackTree.InOrderSorted | rb.cpp:448-455 | The in-order walk of a search tree is strictly increasing and lists exactly its keys, so a rotation that keeps the walk keeps the order. |
| RedBlackTree.EveryPathSameBlack | rb.cpp:7 | In a black-balanced tree, every downward path to a null child holds the same number of black nodes, namely the black height. |
| RedBlackTree.HeightBound | rb.cpp:10 | With no red-red edge and balanced black counts, the height is at most twice the black height, plus one for a red root. |
| RedBlackTree.MinDepthBound | rb.cpp:10 | The black height is at most the length of the shortest downward path. |
| RedBlackTree.LongestAtMostTwiceShortest | rb.cpp:10 | In a red-black tree the longest downward path is at most twice the shortest. |
| RBArena.Abs | rb.cpp:159-166 | The records reachable from a link denote a `Tree` that is a search tree, non-empty exactly when the link is not null, with key set the recorded key set. |
| RBArena.AbsColours | rb.cpp:4-7 | Under the local colour invariants, the denoted tree has no red-red edge and balanced black counts. Its black height is the recorded one, and its root is red exactly when the record is. |
| RBArena.ArenaIsRedBlack | rb.cpp:4-7 | A well-formed arena with the colour invariants and a black root denotes a red-black tree holding exactly the recorded keys. |
| RBArena.ParentKeys | rb.cpp:159-166 | In a well-formed arena, a node's key set is a proper subset of its parent's. This is what ends the upward fix-up loop. |
| RBRotate.LeftRotationStepsFields | rb.cpp:448-467 | The five link updates of `RotateLeft`, in source order, give exactly the left-rotation records. The right child takes the old parent link, the old root becomes its left child and adopts its left subtree, that subtree names the old root as parent, and nothing else changes. |
| RBRotate.RightRotationStepsFields | rb.cpp:470-489 | The mirror of LeftRotationStepsFields for `RotateRight`. |
| RBRotate.RotateLeftAbs | rb.cpp:448-467 | After the left-rotation records, the subtree at the new top reads as `RedBlackTree.RotateLeft` of the old subtree. So the in-order order is kept. |
| RBRotate.RotateRightAbs | rb.cpp:470-489 | After the right-rotation records, the subtree at the new top reads as `RedBlackTree.RotateRight` of the old subtree. |
| RBRotate.LeftRotationRelinked | rb.cpp:448-467 | A left rotation whose new top is then linked into the old root's parent (or becomes the root) leaves the tree well-formed over the same keys. Every child link is matched by the child's parent link. |
| RBRotate.RightRotationRelinked | rb.cpp:470-489 | The same for the right rotation. |
| RBRotate.LeftRotationKeepsStructure | rb.cpp:448-467 | Any record change that rotates left and relinks, colours aside, keeps the arena well-formed with the same root key set. |
| RBRotate.RightRotationKeepsStructure | rb.cpp:470-489 | The same for the right rotation. |
| RBRotate.LeftRightFirstHalfIsHalfway | rb.cpp:505-515 | The first half of `RotateLeftRight`, in source order including the two stores the second half overwrites, leaves the records of a left rotation about the left child, linked in as the root's left child. |
| RBRotate.RightLeftFirstHalfIsHalfway | rb.cpp:546-556 | The mirror for `RotateRightLeft`. |
| RBRotate.LeftRightHalfwayStructure | rb.cpp:505-515 | Halfway through the left-right rotation, the arena is well-formed over the same keys. |
| RBRotate.RightLeftHalfwayStructure | rb.cpp:546-556 | The same halfway through the right-left rotation. |
| RBRotate.LeftRightHalfwayAbs | rb.cpp:505-515 | Halfway through, the subtree reads as the root over `RotateLeft` of its old left subtree. |
| RBRotate.RightLeftHalfwayAbs | rb.cpp:546-556 | Halfway through, the subtree reads as the root over `RotateRight` of its old right subtree. |
| RBRotate.LeftRightSecondHalfIsRotation | rb.cpp:517-527 | The second half of `RotateLeftRight` is exactly a right rotation about the root. |
| RBRotate.RightLeftSecondHalfIsRotation | rb.cpp:558-568 | The second half of `RotateRightLeft` is exactly a left rotation about the root. |
| RBRotate.LeftRightAbs | rb.cpp:492-528 | Both halves together read as `RedBlackTree.RotateLeftRight` of the old subtree. |
| RBRotate.RightLeftAbs | rb.cpp:531-569 | Both halves together read as `RedBlackTree.RotateRightLeft` of the old subtree. |
| RBBalance.RecolourColours | rb.cpp:336-342 | Red uncle case: the parent and uncle turn black and the grandparent red. This raises the grandparent's black height by one and keeps every black count balanced. The only red-red edge left is the one from the grandparent into its parent. Structure and keys are unchanged. |
| RBBalance.ColoursSettle | rb.cpp:309-312 | When the node that may be red above a red child has a black or missing parent, there is no red-red edge. |
| RBBalance.BlackenRoot | rb.cpp:316 | Painting the root black removes the last possible red-red edge and keeps every black count balanced. |
| RBBalance.LeftLeftColours | rb.cpp:383-387 | Black uncle, parent and new node both left children: after the right rotation about the grandparent, the repaint and the splice, no red-red edge remains. Black heights, structure and keys are unchanged. |
| RBBalance.RightRightColours | rb.cpp:400-404 | The mirror of LeftLeftColours, with a left rotation. |
| RBBalance.LeftRightColours | rb.cpp:388-395 | Black uncle, parent a left child and new node a right child: after the left-right rotation, the repaint and the splice, no red-red edge remains. Black heights, structure and keys are unchanged. |
| RBBalance.RightLeftColours | rb.cpp:405-412 | The mirror of LeftRightColours, with a right-left rotation. |
| RBBalance.LeftSideColours | rb.cpp:381-395 | Parent a left child, either rotation, followed by the splice of rb.cpp:416-427. The result has no red-red edge and the same structure and keys. The new top is the parent or the new node, and is black. The old grandparent is its red right child. |
| RBBalance.RightSideColours | rb.cpp:398-412 | The mirror: the new top is black and the old grandparent is its red left child. |
| RBInsert.AttachedFields | rb.cpp:299-307 | The new red record has no children and names the attach point as its parent. It becomes the attach point's right child if the key is greater, otherwise its left child. Key sets grow by `e` exactly along the search path. |
| RBInsert.AttachStructure | rb.cpp:299-307 | Attaching below the last node of a search path that ended at null leaves the arena well-formed. The tree's key set is the old one plus `e`. |
| RBInsert.AttachColours | rb.cpp:272-307 | The new red node, with black height 0, keeps every black count balanced. The only possible red-red edge is the one into it. |
| RBInsert.InsertAsWritten | rb.cpp:249-318 | The insert as written, with `isRed()` read as the field: an empty tree or the root's own key leaves the arena unchanged; otherwise the new node goes directly below the root, and the root ends black (a red root is blackened at rb.cpp:316 after `BalanceTree` stops at rb.cpp:330-333 for want of a grandparent). |
| RBInsert.InsertAsWrittenBlackensRedRoot | rb.cpp:309-318 | As written, inserting 1 below a lone red root 2 attaches 1 as its left child and paints the root black. |
| RBInsert.InsertAsWrittenSkipsEmptyTree | rb.cpp:254-272 | As written, inserting into the empty tree leaves it empty. |
| RBInsert.InsertAsWrittenDropsSubtree | rb.cpp:254-307 | As written, inserting 0 into the tree 2 (black) with left child 1 (red) makes the new node the root's left child. The node holding 1 is cut off. |
| RB.RBTree.constructor | rb.cpp:172-175 | A new tree is empty and satisfies the invariants. |
| RB.RBTree.RotateLeft | rb.cpp:448-467 | The new top is the old right child. The records change as a left rotation. The subtree at the new top reads as `RotateLeft` of the old subtree. `root` and black heights are untouched. |
| RB.RBTree.RotateRight | rb.cpp:470-489 | The mirror of RotateLeft. |
| RB.RBTree.RotateLeftRight | rb.cpp:492-528 | The new top is the old left child's right child. The arena halfway is the left rotation about the left child. The second half is a right rotation. The result reads as `RotateLeftRight` of the old subtree. |
| RB.RBTree.RotateRightLeft | rb.cpp:531-569 | The mirror of RotateLeftRight. |
| RB.RBTree.RotateLeftRightFirstHalf | rb.cpp:505-515 | Gives the halfway records. The arena stays well-formed, and the root's left child is the future top. |
| RB.RBTree.RotateLeftRightSecondHalf | rb.cpp:517-527 | Gives the right-rotation records. |
| RB.RBTree.RotateRightLeftFirstHalf | rb.cpp:546-556 | The mirror of RotateLeftRightFirstHalf. |
| RB.RBTree.RotateRightLeftSecondHalf | rb.cpp:558-568 | Gives the left-rotation records. |
| RB.RBTree.GetBrotherNode | rb.cpp:437-445 | The result is the child of `p`'s parent that is not `p`. It is null when that slot is empty, and otherwise shares `p`'s parent. |
| RB.RBTree.FindInsertPoint | rb.cpp:251-269 | Reports `e` found exactly when `e` is in the tree. Otherwise it returns the search path that ends at null and its last node, the attach point; that node is null for an empty tree. |
| RB.RBTree.InsertElem | rb.cpp:244-318 | Keeps the invariants. The key set becomes the old one plus `e`, and the tree is a red-black tree. An existing key leaves the arena and root unchanged. An empty tree becomes a single black root holding `e`. |
| RB.RBTree.BalanceTree | rb.cpp:320-434 | From one red-red edge into a red parent, the loop ends with a well-formed arena over the same keys. No red-red edge remains except possibly below a red root, which the caller blackens. |
| RB.RBTree.Recolour | rb.cpp:336-342 | The parent and uncle turn black and the grandparent red, with black heights updated. The only red-red edge left can be the grandparent's. |
| RB.RBTree.BalanceByRotation | rb.cpp:366-428 | Black or missing uncle: no red-red edge is left and black heights are unchanged. The new top is the parent when the new node is on the parent's side (b.2.2, b.2.5) and the new node otherwise (b.2.3, b.2.6); it is black, and the old grandparent is its red child. The records are the single or double rotation about the grandparent (full record frame), then the repaint, then the splice into the grandparent's old parent link, chosen by side, or into `root` when that parent is null. Structure and keys are unchanged. |
| RB.RBTree.RepairLeftSide | rb.cpp:381-395 | Parent a left child: a right rotation or a left-right rotation, chosen by the new node's side. Then the new top is painted black and its right child red. |
| RB.RBTree.RepairRightSide | rb.cpp:398-412 | The mirror: a left rotation or a right-left rotation, and the new top's left child is painted red. |

## Left out

- `_nmsp0::LinkQueue` (rb.cpp:25-152) is not modelled. It is a queue that only drives the level-order display.
- `levelOrder`, `getNodeLevel` and the other display code (rb.cpp:183-241) are not modelled. They only print to `cout`.
- `ReleaseNode` and the destructor (rb.cpp:177-180, 572-580) are not modelled. They free memory, which an arena does not need.
- `main` (rb.cpp:586-590) only prints, so it is not modelled.
- Deletion does not exist in the source.
- Heap allocation is not modelled: `new RBNode<T>` appends a record to the arena.
- Template keys are not modelled: keys are `int`. A key type with other `==` and `>` semantics is not covered.
- rb.cpp:11 claims the height is about 2 log N. That claim is not proved, because it needs logarithms. The path-length facts it rests on are proved (HeightBound, MinDepthBound, LongestAtMostTwiceShortest).

## Findings

| source | as written | input that shows it | evidently intended | confidence | as-written member | corrected member |
|---|---|---|---|---|---|---|
| rb.cpp:254-318 | The new node is allocated inside the descent loop (rb.cpp:272). The first pass therefore attaches and ends the call: directly on a black root (rb.cpp:309-312); on a red root after `BalanceTree` and the blackening at rb.cpp:316, when the second pass meets `e` in the new node (rb.cpp:256-258). An empty tree never enters the loop, and otherwise the node is attached directly below the root, over the child already there. | Insert any key into the empty tree: nothing is inserted. Insert 0 into the tree 2 (black) with left child 1 (red): the node holding 1 is no longer reachable. | Descend to null first, then allocate and attach there (rb.cpp:278-289). | high; not executed | RBInsert.InsertAsWritten, RBInsert.InsertAsWrittenSkipsEmptyTree, RBInsert.InsertAsWrittenDropsSubtree, RBInsert.InsertAsWrittenBlackensRedRoot | RB.RBTree.InsertElem |
