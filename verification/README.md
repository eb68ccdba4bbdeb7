# Verified model of embedlib

embedlib is a C library for embedded systems: a red-black tree in two variants (`rbtree`), a ring-buffer queue and two sorted-array containers (`array_utils`). This project models all of them in Dafny 4.11 and proves what they promise. `dafny verify dfyconfig.toml` checks everything.

## The trees

Both variants are modelled as node objects whose fields are overwritten in place.

* **Specification.** A tree value (`Trees`) carries node identities, keys and colours. A zipper (`Zippers`) is a focus subtree with the chain of its ancestors. Insertion repair (`InsertSpec`), removal and its repair (`RemoveSpec`), stepping (`IterSpec`) and search (`SearchSpec`) are functions on zippers. Their results are proved legal, in order and complete for all inputs. `InsertTurns` and `RemoveTurns` say how many rotations each repair makes: at most two and at most three, and no fewer in general. The red-black laws themselves are tied to their textbook reading by `Trees.RedBlackMeaning`.
* **Compact tree** (`CompactHeap`, `CompactInsert`, `CompactRemove`, `CompactIter`, `CompactTree`). Nodes have two packed words and no parent. `Holds` says that the heap is a given zipper. `Path.Tracks` says that `path[1..cur]` is exactly the chain of (ancestor, direction) of that zipper and `path[0]` is the sentinel. Every loop keeps the two in agreement and produces the tree of the specification. Array bounds of the stack are proved for every access. No contract mentions the sentinel's direction, so no result depends on it. The ghost field `Root.turns` counts rotations; only `RbRotate` advances it, and every caller's contract equates its growth with the specification.
* **Parent-pointer tree** (`ParentHeap`, `ParentInsert`, `ParentRemove`, `ParentIter`, `ParentTree`). The same predicates also fix every parent word. Its loops are proved to produce the same trees with the same number of rotations.
* **Agreement** (`Renaming`, `RunMeaning`, `Agreement`). The specification commutes with renaming nodes, so one run on numbers describes the runs of both implementations. `RunMeaning` says what the answers of a run are in terms of the calls alone. A run of the parent-pointer tree needs no bound. A run of the compact tree needs room for the keys that are present at a time, however many calls it makes.
* **Capacity** (`PathCapacity`, `AscendingRun`). The stack has C entries, C being eight times the size of a pointer. The exact bound is proved: searches stay inside for every tree of at most n nodes if and only if n < 2^(C/2+1) - 2, and the same for the trees that calls can make. Inserting ascending keys builds the thinnest tree of its height, whose right spine works like a counter; the insertion that meets 2^(C/2+1) - 2 nodes is the first that leaves the stack. On a machine with 32-bit pointers that is after 131070 nodes, which fit in memory, so insert and remove require the bound.
* **Packed words** (`PackedWord`). The trees use pairs of pointer and colour bit. The bit operations of the C code on a 64-bit word are proved to refine them exactly when addresses are 2-aligned.
* **Keys** (`KeyOrder`). Keys in the trees are integers compared with `<`. That is no restriction: for every strict total order and every finite set of keys, a run that compares with the comparator is the run on the keys' ranks.

The descending and ascending loops, the branches of the repair loops and the hanging-in of a subtree, which the C code writes inline, are methods of their own.

## The array containers

* `ArrayQueue`: the ring buffer as a class over an array, its live iterator, and the bounded sequence they refine.
* `BinarySearch`, `ArrayShift`, `ArrayMap`, `ArrayMapPool`: the sorted arrays. Search indices have type `int32`, so the verifier checks every midpoint for overflow; `BinarySearch.OverflowIsExact` shows that 2^30 elements is exactly the limit. Whole runs are proved against a bounded finite map, for the pool together with the sequence of its free objects, and their answers are also stated in terms of the calls alone. Ghost counters in the pool's objects count the calls of the initializer and the finalizer. The pool's keys live in heap objects that `get` overwrites. The user's initializer is any code that touches only its object and leaves it with the key; the finalizer is any code that touches only its object.

## Model

| member | source | states |
|---|---|---|
| `Trees.RedBlackMeaning` | rbtree/test_rbtree.c:51-70 | The red-black laws of the model hold exactly when no red node has a red child and every way from the root to a leaf meets the same number of black nodes |
| `Trees.RotateKeepsOrder` | rbtree/rbtree_compact.c:28-34 | Rotation keeps the order of the nodes, in both walking directions |
| `Trees.RotateKeepsIds` | rbtree/rbtree_compact.c:28-34 | Rotation keeps the set of node objects, each once |
| `Trees.WalkMirror` | rbtree/rbtree_compact.h:165-219 | The walk with previous is the walk with next read backwards |
| `Trees.IdsAreWalked` | rbtree/rbtree_compact.h:165-219 | A walk meets exactly the node objects of the tree |
| `Zippers.WalkPlug` | rbtree/rbtree_compact.h:132-150 | Around the path of ancestors, the walk of the whole tree is what the ancestors put before the focus, the focus, and what they put after it |
| `Zippers.PlugLegal` | rbtree/rbtree_compact.c:36-171 | A tree is legal exactly when the path context is sound for the black height of its focus; both repair loops argue through this |
| `Zippers.PathAppend` | rbtree/rbtree_compact.c:192-204 | Stacking the way to the successor appends its entries to the stack |
| `InsertSpec.RoundKeepsInvariant` | rbtree/rbtree_compact.c:36-55 | Below a red parent the grandparent exists (never NULL), and a red-uncle round keeps "only the red focus may break a law" and the final result |
| `InsertSpec.TurnIsSound` | rbtree/rbtree_compact.c:56-81 | With a black uncle the turned subtree is a legal tree one black level higher than the focus |
| `InsertSpec.InsertFixKeepsOrder` | rbtree/rbtree_compact.c:36-85 | Insertion repair moves no node in the order and drops none, from any context |
| `InsertSpec.InsertFixIsLegal` | rbtree/rbtree_compact.c:36-85 | Insertion repair ends in a black root, no red node with a red child and equal black heights, from every red focus in a sound context |
| `InsertSpec.TurnKeepsInvariant` | rbtree/rbtree.c:52-90 | After cases 2 and 3 the parent-pointer loop stands below a black parent, so it ends although it has no break, with the same result |
| `InsertSpec.InsertTurnsAreExact` | rbtree/rbtree_compact.c:36-85 | Two is the least bound on the rotations of an insertion, over all states of the repair |
| `RemoveSpec.SiblingExists` | rbtree/rbtree_compact.c:88-100 | The sibling of a focus that is one black level short is never NULL, and a red sibling has two children |
| `RemoveSpec.RoundKeepsDeficit` | rbtree/rbtree_compact.c:88-158 | One removal round: case 1 keeps the deficit under a black sibling; case 2 moves it up or, under a red parent, ends it; cases 3 and 4 end in a legal tree |
| `RemoveSpec.RemoveFixKeepsOrder` | rbtree/rbtree_compact.c:88-171 | Removal repair moves no node in the order and drops none |
| `RemoveSpec.RemoveFixIsLegal` | rbtree/rbtree_compact.c:88-171 | Removal repair makes a legal tree of every tree with a focus one black level short |
| `RemoveSpec.SuccessorIsSound` | rbtree/rbtree_compact.c:190-217 | The successor in the node's place, with the node's colour, leaves a legal tree before it is spliced out |
| `RemoveSpec.SplicedApart` | rbtree/rbtree_compact.c:173-225 | After splicing exactly the removed node object is gone and no object occurs twice |
| `RemoveSpec.UnlinkedIsSpliced` | rbtree/rbtree_compact.c:192-225 | Seen from the node's old place and seen from the successor's old place, unlinking makes the same tree |
| `RemoveSpec.RemoveAtIsLegal` | rbtree/rbtree_compact.c:173-231 | Removal at any node of any legal tree leaves a black root, no red node with a red child and equal black heights |
| `RemoveSpec.RemoveAtOrder` | rbtree/rbtree_compact.c:173-231 | Removal leaves every other node in its place in the order: relinking moves and drops none |
| `RemoveSpec.RemoveAtIsCorrect` | rbtree/rbtree_compact.c:173-231 | Removal at any node of any legal tree yields a legal tree whose in-order sequence is the old one without exactly that node |
| `RemoveSpec.RemoveTurnsAreExact` | rbtree/rbtree_compact.c:88-231 | Three is the least bound on the rotations of a removal, over all nodes of all legal trees |
| `IterSpec.EndIsFirst` | rbtree/rbtree_compact.c:233-249 | The descent towards one end finds the first item of the walk away from it, and nothing exactly in the empty tree |
| `IterSpec.StepIsNext` | rbtree/rbtree_compact.c:251-287 | One step raises the rank by exactly one and finds nothing exactly from the last item |
| `IterSpec.PlaceIsUnique` | rbtree/rbtree_compact.c:251-287 | A tree has one place, and so one path, for each rank |
| `IterSpec.StepBack` | rbtree/rbtree_compact.c:251-287 | A step that succeeds is undone by the step in the other direction, node and path alike |
| `SearchSpec.SeekOrder` | rbtree/rbtree_compact.h:316-344 | A search that hits finds the node stored under the key; one that misses stands where the key belongs, and the key occurs nowhere |
| `SearchSpec.InsertedIsCorrect` | rbtree/rbtree_compact.h:272-312 | Insert keeps a red-black search tree; a new key enters at its sorted place, a present key changes nothing; the finite map gains exactly that entry |
| `SearchSpec.RemovedIsCorrect` | rbtree/rbtree_compact.h:348-358 | Remove keeps a red-black search tree and takes exactly the entry of the key; an absent key changes nothing |
| `SearchSpec.RemovedAtRank` | rbtree/test_rbtree.c:440-488 | Removal at the place of rank i takes exactly item i out of the sequence |
| `SearchSpec.FoundIsCorrect` | rbtree/rbtree_compact.h:316-344 | Find returns a node exactly when its key is present |
| `SearchSpec.RunRefinesMap` | rbtree/rbtree_compact.h:272-358 | Every sequence of insert, find and remove calls keeps a red-black search tree and answers like a finite map |
| `RunMeaning.RunAnswers` | rbtree/rbtree_compact.h:272-358 | In a run from the empty tree every call returns the node that the first insertion of its key brought in since the key was last removed, and nothing exactly when there is none |
| `RunMeaning.RunContents` | rbtree/rbtree_compact.h:272-358 | After a run exactly the keys inserted and not removed since are present, each with that node |
| `SearchSpec.RunTurnsBound` | rbtree/rbtree_compact.h:272-358 | A run makes at most 2 * (number of insertions) + 3 * (number of removals) rotations |
| `SortedItems.ContentsSplit` | rbtree/rbtree_compact.h:272-358 | Taking one item out of a sorted sequence takes exactly its key out of the map |
| `PathCapacity.SizeBound` | rbtree/rbtree_compact.h:146-150 | A longest way of b black and r red nodes forces at least 2^b + 2^r - 2 nodes |
| `PathCapacity.FewNodesFit` | rbtree/rbtree_compact.h:146-150 | With fewer than 2^(C/2+1) - 2 nodes no path is longer than the C - 1 usable entries |
| `PathCapacity.SplicedReach` | rbtree/rbtree_compact.c:116-119 | Removal's context, with the extra entry of case 1, stays within the height of the tree it started from |
| `PathCapacity.TallSearch` | rbtree/rbtree_compact.h:297-299 | In the thinnest tree of height 2m a search past the greatest key stacks 2m ancestors |
| `AscendingRun.CarryIncrements` | rbtree/rbtree_compact.c:36-85 | Inserting past the greatest key counts: the digits 1 to 3 of the right spine are incremented with carry, one case of the repair for each digit |
| `AscendingRun.AscendingBuildsTall` | rbtree/rbtree_compact.h:272-312 | Inserting 0, 1, 2, ... builds the thinnest tree of height 2m after 2^(m+1) - 2 keys |
| `AscendingRun.AscendingOverflow` | rbtree/rbtree_compact.h:297-299 | In that run the descent stays inside the stack while fewer than 2^(C/2+1) - 2 nodes are present; the next insertion is the first to stack C ancestors and so to write past the array |
| `AscendingRun.CapacityIsExact` | rbtree/rbtree_compact.h:146-150 | A stack of C entries suffices for every search in every tree of at most n nodes, and in every such tree that calls can make, if and only if n < 2^(C/2+1) - 2 |
| `PackedWord.EncodeReads` | rbtree/rbtree_compact.h:92-125 | Reading a packed word of an aligned pointer and a colour gives both back |
| `PackedWord.EncodeIsInjective` | rbtree/rbtree.h:55-84 | No two pairs of pointer and colour share a word |
| `PackedWord.SettersRefine` | rbtree/rbtree_compact.h:97-130 | Each setter on the packed word changes exactly its own component of the pair |
| `PackedWord.AlignmentIsNeeded` | rbtree/rbtree_compact.h:97-100 | The pointer setter leaves every word's low bit alone if and only if the address is aligned |
| `CompactHeap.RbNode.SetChild` | rbtree/rbtree_compact.h:97-100 | Changes one child pointer; the other child and both low bits stay |
| `CompactHeap.RbNode.SetColor` | rbtree/rbtree_compact.h:127-130 | Changes the colour bit of the left word and nothing else |
| `CompactHeap.RbNode.CopyLeftChildColor` | rbtree/rbtree_compact.h:107-110 | Copies left child and colour together |
| `CompactHeap.RbNode.CopyRightChild` | rbtree/rbtree_compact.h:117-120 | Copies the right word whole |
| `CompactHeap.Path.Init` | rbtree/rbtree_compact.h:156-157 | Empties the stack; the direction of the sentinel entry is left as it is and no contract reads it |
| `CompactHeap.Path.Push` | rbtree/rbtree_compact.c:241-244 | The stack gains one ancestor and still is exactly the chain from the root |
| `CompactHeap.Path.InsertBelowTop` | rbtree/rbtree_compact.c:116-119 | The extra entry of case 1: afterwards the stack is the chain through the risen sibling |
| `CompactHeap.Path.Patch` | rbtree/rbtree_compact.c:215-215 | Renaming the removed node's entry to the successor makes the stack the chain of the relinked tree |
| `CompactHeap.LinkedPlug` | rbtree/rbtree_compact.c:36-231 | The heap holds a whole tree exactly when it holds its context and its focus |
| `CompactHeap.RbRotate` | rbtree/rbtree_compact.c:28-34 | Rotating the links of a subtree makes the heap hold the rotated subtree, and counts one rotation |
| `CompactHeap.Hang` | rbtree/rbtree_compact.c:69-78 | Storing a subtree at the path entry, or at the root, makes the heap hold it there and changes nothing else |
| `CompactInsert.Round` | rbtree/rbtree_compact.c:39-82 | One loop round: grandparent and uncle read through the stack, cases 1 to 3 in the heap, stack and tree kept in agreement |
| `CompactInsert.RbInsertColor` | rbtree/rbtree_compact.c:36-85 | The heap ends up holding the repaired tree of the specification, with the same node objects, after exactly as many rotations as the specification says, at most two |
| `CompactIter.Descend` | rbtree/rbtree_compact.c:239-246 | The descending loop ends at the end of the spine with exactly its ancestors stacked |
| `CompactIter.RbIter` | rbtree/rbtree_compact.c:233-249 | First and last: the node at the end of the order, and its path |
| `CompactIter.RbIterNext` | rbtree/rbtree_compact.c:251-287 | Next and previous: the node of the next place and exactly its path; no node and an empty stack past the end |
| `CompactRemove.Round` | rbtree/rbtree_compact.c:91-163 | One removal round in the heap: all four cases, the case 1 push and the case 2 pop; the rotations made and those still to come add up to those of the specification |
| `CompactRemove.RbRemoveColor` | rbtree/rbtree_compact.c:88-171 | The heap ends up holding the repaired tree of the specification after exactly its number of rotations, at most three; every stack access is in bounds |
| `CompactRemove.TakePlace` | rbtree/rbtree_compact.c:205-216 | The successor takes over children and colour of the node, deep or as the right child |
| `CompactRemove.Unlink` | rbtree/rbtree_compact.c:173-225 | The three ways to unlink: the subtree to hang in, the subtree to repair at, the colour that was lost and the stack that leads there |
| `CompactRemove.RbRemove` | rbtree/rbtree_compact.c:173-231 | Given a node and its path in any legal tree that fits the stack, the heap ends up holding the tree without that node, whose own words stay as they were |
| `CompactTree.RightBitIsClear` | rbtree/rbtree_compact.h:112-120 | In every valid tree, so after every sequence of calls, no right word carries a low bit |
| `CompactTree.MapIsNodes` | rbtree/rbtree_compact.h:316-344 | The map of a valid tree holds exactly its node objects, each under the key the object carries |
| `CompactTree.RbFind` | rbtree/rbtree_compact.h:316-344 | Returns the node of the key or NULL exactly when absent; on a hit the stack is the place of the node, as removal and iteration require |
| `CompactTree.RbInsert` | rbtree/rbtree_compact.h:272-312 | Keeps a valid tree; returns the new node, or on an equal key the node already there with the tree and the rejected node unchanged |
| `CompactTree.RbRemoveKey` | rbtree/rbtree_compact.h:348-358 | Keeps a valid tree; removes and returns the node of the key, or returns NULL with nothing changed |
| `CompactTree.VisitFrom` | rbtree/rbtree_compact.c:251-287 | Repeated next from any place returns every later node once, in order, and then NULL |
| `CompactTree.VisitAll` | rbtree/test_rbtree.c:376-417 | First and repeated next, or last and repeated previous, return every node once, in order |
| `CompactTree.VisitFromKey` | rbtree/test_rbtree.c:419-438 | From a found key, repeated next returns exactly the nodes from that key on |
| `CompactTree.NextAndBack` | rbtree/rbtree_compact.c:251-287 | Next, when it returns a node, followed by previous returns the original node and restores the live part of the stack; the same with the directions exchanged |
| `CompactTree.RemoveNth` | rbtree/test_rbtree.c:440-488 | Removing the node that iteration has reached removes exactly the item of that rank |
| `ParentHeap.RbNode.SetParent` | rbtree/rbtree.h:60-64 | Changes the parent and keeps the colour |
| `ParentHeap.LinksAreInverse` | rbtree/rbtree.h:38-42 | In a tree held by the heap every child names its parent and every parent has that child |
| `ParentHeap.FocusParent` | rbtree/rbtree.c:55-58 | The parent word names the nearest ancestor, and comparing child pointers tells the side of the focus |
| `ParentHeap.RbRotate` | rbtree/rbtree.c:28-50 | Rotation in place, with all parent links and the parent's child or the root pointer, makes the heap hold the rotated subtree, and counts one rotation |
| `ParentInsert.Round` | rbtree/rbtree.c:55-88 | One loop round; it moves two levels up or leaves a black parent, so the loop ends without a break |
| `ParentInsert.RbInsertColor` | rbtree/rbtree.c:52-90 | The heap ends up holding the same repaired tree as the compact one after as many rotations, at most two |
| `ParentRemove.FocusSide` | rbtree/rbtree.c:97-98 | Comparing child pointers tells the side even of an empty focus, because the sibling exists |
| `ParentRemove.Round` | rbtree/rbtree.c:94-143 | One removal round in the heap: all four cases through parent pointers |
| `ParentRemove.RbRemoveColor` | rbtree/rbtree.c:92-149 | The heap ends up holding the same repaired tree as the compact one after as many rotations, at most three |
| `ParentRemove.TakePlace` | rbtree/rbtree.c:182-215 | The successor takes over children, parent and colour of the node, deep or as the right child |
| `ParentRemove.Unlink` | rbtree/rbtree.c:158-224 | The three ways to unlink, and the parent from which repair starts |
| `ParentRemove.RbRemove` | rbtree/rbtree.c:158-228 | Given a node of any legal tree, the heap ends up holding the tree without that node, all links mutual; the words of the removed node stay as they were |
| `ParentIter.RbIter` | rbtree/rbtree.c:230-242 | First and last: the node at the end of the order |
| `ParentIter.RbIterNext` | rbtree/rbtree.c:244-268 | Next and previous: the node of the next place, or NULL past the end |
| `ParentTree.ValidLinks` | rbtree/rbtree.c:28-228 | In every valid tree exactly the root has no parent and parent and child links are mutual inverses |
| `ParentTree.MapIsNodes` | rbtree/rbtree.h:169-193 | The map of a valid tree holds exactly its node objects, each under the key the object carries |
| `ParentTree.RbFind` | rbtree/rbtree.h:169-193 | Returns the node of the key, or NULL exactly when absent |
| `ParentTree.RbInsert` | rbtree/rbtree.h:126-165 | Keeps a valid tree; returns the new node, or on an equal key the node already there with the tree and the rejected node unchanged |
| `ParentTree.RbRemoveKey` | rbtree/rbtree.h:197-206 | Keeps a valid tree; removes and returns the node of the key, or returns NULL with nothing changed |
| `ParentTree.VisitAll` | rbtree/test_rbtree.c:376-417 | First and repeated next, or last and repeated previous, return every node once, in order |
| `ParentTree.VisitFromKey` | rbtree/test_rbtree.c:419-438 | From a found key, repeated next returns exactly the nodes from that key on |
| `Renaming.RenameInsertFix` | rbtree/rbtree_compact.c:36-85 | Insertion repair never looks at the identity of a node |
| `Renaming.RenameRemoveAt` | rbtree/rbtree_compact.c:173-231 | Removal never looks at the identity of a node |
| `Renaming.RenameApply` | rbtree/rbtree_compact.h:272-358 | A call on a renamed tree gives the renamed tree and the renamed answer |
| `Renaming.RenameCallTurns` | rbtree/rbtree_compact.h:272-358 | A call on a renamed tree makes the same number of rotations |
| `Agreement.CompactCall` | rbtree/rbtree_compact.h:272-358 | A generated call on the compact heap is the call of the specification on its tree |
| `Agreement.ParentCall` | rbtree/rbtree.h:126-206 | A generated call on the parent-pointer heap is the same call of the specification |
| `Agreement.RunCompact` | rbtree/rbtree_compact.h:272-358 | Any run of calls on the compact tree, from empty, if before each call fewer than 2^(C/2+1) - 2 keys are present: every call returns the pointer of the node that its key stands for by the calls before it, else NULL; the tree ends with exactly the keys inserted and not removed since |
| `Agreement.RunParent` | rbtree/rbtree.h:126-206 | The same of the parent-pointer tree, without any bound |
| `Agreement.RunBoth` | rbtree/rbtree_compact.c:36-231 | Started empty and given the same calls, both implementations hold trees of the same shape, colours and keys, every call returns the node of the same number on both sides (NULL on both sides, or the node that its key stands for by the calls before it), and both make the same number of rotations, at most 2 per insertion and 3 per removal; the only bound is on the keys present at a time |
| `KeyOrder.RankEmbeds` | rbtree/rbtree_compact.h:316-344 | Ranks embed every strict total order on a finite set of keys in the integers |
| `KeyOrder.SeekByIsSeek` | rbtree/rbtree_compact.h:316-344 | The descent with a comparator of three outcomes is the descent by rank |
| `KeyOrder.RunByIsRun` | rbtree/rbtree_compact.h:272-358 | For every strict total order, every run that compares keys with it has the trees and answers of the run by ranks |
| `KeyOrder.RunByAnswers` | rbtree/rbtree_compact.h:272-358 | In a run by comparator every call returns the node that the first insertion of an equal key brought in since its last removal |
| `ArrayQueue.Queue.BackIsRemainder` | array_utils/array_queue.h:64-92 | back == (front + len) % size, and back == front exactly for an empty or a full ring |
| `ArrayQueue.Queue.ContentsAt` | array_utils/array_queue.h:64-92 | Position k of the sequence is item[(front + k) % size] |
| `ArrayQueue.Queue.Enqueue` | array_utils/array_queue.h:64-77 | Appends exactly when the ring is not full; a full ring is left unchanged, array and fields |
| `ArrayQueue.Queue.Dequeue` | array_utils/array_queue.h:79-92 | Takes the first item exactly when the ring is not empty; an empty ring is left unchanged, array and fields |
| `ArrayQueue.Queue.Begin` | array_utils/array_queue.h:101-101 | The iterator stands before the first item, or at the end of an empty ring |
| `ArrayQueue.Queue.Next` | array_utils/array_queue.h:102-114 | The iterator moves on by one position and reaches the end exactly after the last, also in a full ring |
| `ArrayQueue.Queue.ShiftDown` | array_utils/array_queue.h:126-132 | The shifting loop moves every later item one position down, across the wrap |
| `ArrayQueue.Queue.Remove` | array_utils/array_queue.h:115-136 | Deletes exactly the item the iterator stands before; the iterator then stands before the one that followed |
| `ArrayQueue.Queue.RemoveIf` | array_utils/array_queue.h:100-136 | A loop that removes or steps over visits every original item once, in order, and leaves exactly the kept ones, in order |
| `ArrayQueue.KeptParts` | array_utils/array_queue.h:100-136 | The kept part of two sequences in a row is their kept parts in a row; with `KeptOne`, what is kept of a single item, this fixes the filter on every sequence |
| `ArrayQueue.KeptOne` | array_utils/array_queue.h:100-136 | Of a single item exactly the one that is not to be dropped is kept |
| `ArrayQueue.Queue.RemoveAt` | array_utils/array_queue.h:100-136 | Stepping k times and removing deletes position k, if there is one |
| `ArrayQueue.Queue.RunCalls` | array_utils/array_queue.h:64-136 | In every run of enqueue, dequeue and iterator removal, the initial items and those enqueue took, without those deleted at their positions, are those dequeue handed out followed by those left, in one order |
| `ArrayQueue.RunOneMore` | array_utils/array_queue.h:64-136 | What one more enqueue, dequeue or deletion at a position does to the items left, handed out and accepted at the end of any run |
| `ArrayQueue.FirstInFirstOut` | array_utils/array_queue.h:64-136 | Over every run: initial and accepted items without the deleted ones are the items handed out followed by those left, in one order |
| `ArrayQueue.GoneOneMore` | array_utils/array_queue.h:115-136 | The item that a deletion at position k takes is the one that stands there, with exactly the items handed out and k others before it |
| `BinarySearch.PlaceIsUnique` | array_utils/array_map.h:127-152 | The matching index or insertion point is the only possible answer of the search |
| `BinarySearch.OverflowIsExact` | array_utils/array_map.h:133-136 | No search in any ascending array of n keys overflows the int midpoint if and only if n <= 2^30 |
| `BinarySearch.PlaceInContents` | array_utils/array_map.h:333-358 | The search answer read in the finite map: found exactly when the key is present, else smaller keys before and greater ones after |
| `ArrayShift.ShiftUp` | array_utils/array_map.h:169-172 | The inserting shift moves the slice behind the index one slot up and nothing else |
| `ArrayShift.ShiftDown` | array_utils/array_map.h:190-193 | The removing shift moves the slice behind the index one slot down and nothing else |
| `ArrayMap.Map.BSearch` | array_utils/array_map.h:333-358 | Returns the index of the key or its insertion point, with every intermediate value within a 32-bit int |
| `ArrayMap.Map.ModelIsPrefix` | array_utils/array_map.h:333-358 | The map holds exactly the values of the prefix, each under the key it carries |
| `ArrayMap.Map.Insert` | array_utils/array_map.h:362-382 | True exactly when the key is new and there is room; then the map gains exactly that entry, else the array and its length stay as they are |
| `ArrayMap.Map.Remove` | array_utils/array_map.h:386-399 | The map loses exactly the given key; for an absent key the array and its length stay as they are |
| `ArrayMap.Map.Find` | array_utils/array_map.h:403-413 | Found exactly when the key is present, with its value |
| `ArrayMap.Map.RunCalls` | array_utils/array_map.h:333-413 | In every run of insert, remove and find, a find answers with the value that was stored under its key and not removed since, or was there from the start, and with none otherwise; never more than size keys are present |
| `ArrayMap.RunOneMore` | array_utils/array_map.h:362-413 | What one more insert, remove or find does and answers at the end of any run |
| `ArrayMap.MapMeaning` | array_utils/array_map.h:333-413 | After any run a key is present exactly when an insert stored it, or it was there from the start, and no remove followed |
| `ArrayMap.InsertMeaning` | array_utils/array_map.h:362-382 | In any run an insert stores its value exactly when by the calls before it the key is absent and fewer than size keys are present |
| `ArrayMapPool.Pool.BSearch` | array_utils/array_map.h:127-152 | The same search over keys stored inside heap objects |
| `ArrayMapPool.Pool.ModelIsUsed` | array_utils/array_map.h:127-152 | The map holds exactly the objects in use, each under the key it carries |
| `ArrayMapPool.Pool.PoolIsWhole` | array_utils/array_map.h:156-197 | No object occurs twice among those in use and the free ones |
| `ArrayMapPool.TakenKeeps` | array_utils/array_map.h:166-174 | Moving the first free pointer to its sorted place keeps every pointer exactly once; the free object is none of the used ones |
| `ArrayMapPool.DroppedKeeps` | array_utils/array_map.h:189-195 | Moving the freed pointer behind the used ones keeps every pointer exactly once |
| `ArrayMapPool.Pool.Allocate` | array_utils/array_map.h:160-174 | The first free object gets the key and its place in the buffer; the entries of the used objects stay as they were |
| `ArrayMapPool.Pool.Get` | array_utils/array_map.h:156-177 | Returns the object of the key; else takes the first free one into use under the key and initializes it once; else, when none is free, NULL; without a new object nothing changes; the buffer keeps its pointers |
| `ArrayMapPool.Pool.Free` | array_utils/array_map.h:181-197 | The map loses exactly the key; the freed object is finalized once and becomes the first free one, whatever the finalizer does to it; for an absent key nothing changes; the buffer keeps its pointers |
| `ArrayMapPool.Pool.Find` | array_utils/array_map.h:201-211 | The object of the key, or NULL exactly when absent |
| `ArrayMapPool.Pool.RunCalls` | array_utils/array_map.h:156-211 | Over every run of get, free and find the buffer stays a permutation of its pointers and the prefix stays sorted; a key that was got and not freed since answers with the object it was got with, and a find of any other key, unless it was there from the start, with NULL |
| `ArrayMapPool.RunOneMore` | array_utils/array_map.h:156-211 | What one more get, free or find does to the used and the free objects, and answers, at the end of any run |
| `ArrayMapPool.UsedMeaning` | array_utils/array_map.h:156-197 | After any run a key is in use exactly when it was got, or was in use from the start, and was not freed since; its object is the one handed out |
| `ArrayMapPool.RunKeepsWhole` | array_utils/array_map.h:166-176 | In every run a new key gets an object that no other key holds |
| `ArrayMapPool.RunKeepsSize` | array_utils/array_map.h:156-197 | In every run used and free objects add up to the same number, and get fails exactly for an absent key when all are in use |

## Left out

- Recovering the container of an embedded node, and the generation of function names by macros: C layout mechanics; a node carries its key directly.
- Machine words of other widths than 64 bits: the bit operations act on each bit alone.
- User comparators that are no strict total order, such as a subtraction that overflows.
- `Queue.Dequeue` and `Map.Find` return what the C code stores through a pointer argument.
- The widths of the queue's size types: with `front`, `back` and `len` below `size` or equal to it, no stored value exceeds `size`, so none of the three widths wraps.
- A pool buffer longer than its stated size: the slots beyond it are never touched.
- `ArrayMap.Map.Insert`: requires the value's own key to equal the `key` argument, as the documentation says it must; it does not describe the array after a call that breaks this.
- Clear and emptiness macros, the tests' printing helpers and the build files: they would only add easy members.
