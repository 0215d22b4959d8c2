# Search trees, queues, fixed-point time and upload requests

A Dafny model of the algorithms in the W2 board toolchain, with proofs of what they promise:

* `sys/tree.h`: red-black trees with parent links and splay trees with the top-down splay;
* `sys/queue.h`: the four kinds of intrusive lists and queues, whose back links are addresses of links;
* `sys/time.h`: the 64.64 fixed-point `bintime` arithmetic and the conversions between representations of time;
* the uploaders' own code: the block planners, and the two encoders of write requests.

`dafny verify dfyconfig.toml` checks the whole project.

## How it is put together

**Elements and keys.** `Order` has the keys and the user's comparison, which must be a total order (only
the sign of its result counts). `Entries` has the element class with the link fields of both kinds of
trees, and the sequences of elements that specify them. Every operation names the fields that it writes, so
that the two kinds do not disturb each other (`BothTrees`).

**Red-black trees.** The generated functions become methods that write the link fields in place, loops
included. `RbShape` describes a tree and a tree with one subtree cut out (a context). `RbStore` has the head
and the field setters; each of them carries a ghost snapshot of the fields, and `Zip` says that a snapshot
holds a given tree in the hole of a given context. `RbBalance` has the colour conditions for both.
`RbRotate`, `RbInsert`, `RbRemoveColor`, `RbRemove`, `RbSearch` and `RbIterate` follow the macros;
`RbTree.Valid` is the state between two operations: links, parent links, colours, search order.
`RbTour` counts the links from a node to its neighbours. `RbPaths` shows that the colour conditions are
those that the header words by search paths.
Methods that count rotations, comparisons or rounds return the count as a ghost result.

**Splay trees.** `SplayStore` works in the same way, without parent links. A splay has the rest of the tree
and two side trees that hang from a dummy node, each with one open link (`Split` in `TopDownSplay`).
`SplayTree`, `SplayRemove` and `SplayIterate` have the operations. `SplayPart` says by recursion what a
splay comes to, and proves the amortized bound that the header quotes: the weight of a tree is the product
of the sizes of its subtrees, so that its logarithm is the usual potential, and all bounds are stated as
inequalities between products. `SplayAccount` has the shape and the rounds after each operation and
`SplayCost` adds up the costs. `SplayWalk` is about the links that `SPLAY_NEXT` follows after its splay.

**Runs.** `OrderedSet` is the abstract set; `RbRun` and `SplayRun` run any sequence of operations and show
that results and contents are those of the set.

**Queues.** An address of a link is `HeadSlot(head)` or `NextSlot(node)`. Each head has the ghost sequence
of its elements, and every operation is specified by what it does to that sequence. `TAILQ_LAST` and
`TAILQ_PREV` read an element's pair of links as if it were a head; this is the function `Second`.

**Time.** Integers are unbounded; `Signed` and `Unsigned` make every conversion to 64 bits explicit, and
`Wrap` does the same for the 128 bits of a `bintime`. `time_t` is 64 bits wide here, as `sys/_types.h`
has it for this target. The conversions only compute a value and are functions.

**Uploads.** Memory is a function from addresses to bytes, so that a buffer is followed by arbitrary bytes.
`Requests` has the text of a write request and a decoder for it that splits the text at its blanks.
`BoardWriter` has the planners of both serial port tools: `write_bytes_fast` of the Mac tool is the same
code as `write_bytes_16` of the Windows tool, so one method stands for both. A port knows, for the proofs,
what the device at its other end holds: the device decodes the requests one after the other.
`W2Uploader` has the upload; the answers of the operating system to its writes are a function that the
client is made with, so that every pattern of failing and short writes is covered.

## What the proofs brought to light

* `bintime_add` with the same time as both arguments counts a carry twice, because the seconds are added
  after they have been increased (`BinTime.TwiceExact` says when, `BinTime.HalfTwice` is a case).
* `bintime2timespec` and `bintime2timeval` drop the low half of the fraction before they multiply, so they
  are sometimes one unit below the last whole unit (`TimeConvert.BtToTsFloor` and `TimeConvert.BtToTvFloor`
  say when, `TimeConvert.BtToTsOneShort` and `TimeConvert.BtToTvOneShort` are cases).
* A round trip of a `timespec` or a `timeval` through either binary time loses one unit whenever the part
  below the second is not zero (`TimeConvert.TsRoundTrip`, `TimeConvert.TvRoundTrip`, `TimeConvert.TsSbtTs`,
  `TimeConvert.TvSbtTv`).
* `SPLAY_REMOVE` returns its argument, which is the node it has taken out if and only if that node was in
  the tree (`SplayRemove.Remove`); `SplayRemove.RemoveByTwin` is a case where it is another one.
* The loop of `SPLAY_MINMAX` ends if and only if its argument is not zero (`SplayIterate.Ends`); the
  header only passes -1 and 1.
* The links that `SPLAY_NEXT` follows after its splay are paid for by the next access to the node it
  returns (`SplayWalk.WalkPaid`), as in `SPLAY_FOREACH` (`SplayIterate.Foreach`). They are not paid for
  otherwise: `SplayWalk.StuckRun` has a run that leads to a tree where repeated calls follow the same
  links for ever, and `SplayRun.SlowNext` carries it out.
* The guards of `write_bytes_16` and `write_bytes_256` compare a number of bytes with a number of words, so
  that for most sizes they send what comes after the buffer as well (`BoardWriter.SentExact` says for which
  sizes they do not, `BoardWriter.Overrun` is a case).
* `write_words` with no words sends a request without its terminator, unlike the W2 encoder
  (`BoardWriter.Request`, `W2Uploader.Compare`).
* An upload by the W2 uploader succeeds even where the write of a chunk fails or is short
  (`W2Uploader.AllReached` says when everything arrives, `W2Uploader.LostChunk` is a case where it does not).

## Model

| member | source | states |
|---|---|---|
| RbPaths.RedBlackMeans | mac/Compiler/ToolChains/mips-netbsd-elf/include/sys/tree.h:51-56 | The invariant that every red-black operation keeps is exactly the header's: black root, equally many black nodes on every search path, no red node with a red parent (if and only if). |
| RbSearch.HeightBound | mac/Compiler/ToolChains/mips-netbsd-elf/include/sys/tree.h:59 | A tree with n nodes that meets the conditions has height at most 2 lg(n + 1), stated without logarithms as 2^height <= (n + 1)^2. |
| RbSearch.DepthBound | mac/Compiler/ToolChains/mips-netbsd-elf/include/sys/tree.h:58-59 | No place in such a tree is deeper than that bound, which limits the search loops and the fix-up loops alike. |
| RbRotate.RotateLeft | mac/Compiler/ToolChains/mips-netbsd-elf/include/sys/tree.h:340-358 | A left rotation anywhere in a tree relinks parent, children and root so that the pointers hold the rotated shape, and keeps the node sequence. |
| RbRotate.RotateRight | mac/Compiler/ToolChains/mips-netbsd-elf/include/sys/tree.h:360-378 | The mirror image. |
| RbInsert.InsertColor | mac/Compiler/ToolChains/mips-netbsd-elf/include/sys/tree.h:434-475 | From a red node that may have a red parent, the fix-up ends with all conditions and a black root, the same node sequence, and at most two rotations; the grandparent it reads always exists. |
| RbInsert.RecolorOk | mac/Compiler/ToolChains/mips-netbsd-elf/include/sys/tree.h:441-447 | Red uncle: repainting moves the only conflict two levels up and keeps the black counts. |
| RbInsert.OuterLeftOk | mac/Compiler/ToolChains/mips-netbsd-elf/include/sys/tree.h:454-455 | Black uncle, outer child: one rotation at the grandparent leaves no conflict. |
| RbInsert.InnerLeftOk | mac/Compiler/ToolChains/mips-netbsd-elf/include/sys/tree.h:448-453 | Black uncle, inner child: the rotation at the parent gives the outer case. |
| RbInsert.Insert | mac/Compiler/ToolChains/mips-netbsd-elf/include/sys/tree.h:624-654 | Either an equal node is in the tree, is returned and nothing has changed, or no node is equal and the new node stands at one index of the ascending sequence, all else in place; all conditions hold again, with at most two rotations; the comparisons, and the fix-up rounds after them, stay within 2 lg(n + 1); an element that is refused keeps all its fields. |
| RbRemoveColor.RemoveColor | mac/Compiler/ToolChains/mips-netbsd-elf/include/sys/tree.h:479-554 | From a tree one black node short at one place, the fix-up restores all conditions and keeps the sequence, with at most three rotations; the sibling it reads is never null. |
| RbRemoveColor.RedSiblingLeftOk | mac/Compiler/ToolChains/mips-netbsd-elf/include/sys/tree.h:486-490 | Red sibling: the rotation gives a black sibling under a red parent, with the same node short. |
| RbRemoveColor.ClimbLeftOk | mac/Compiler/ToolChains/mips-netbsd-elf/include/sys/tree.h:491-497 | Two black nephews: painting the sibling red moves the shortage to the parent. |
| RbRemoveColor.OuterNephewLeftOk | mac/Compiler/ToolChains/mips-netbsd-elf/include/sys/tree.h:509-515 | Red outer nephew: one rotation at the parent ends the shortage. |
| RbRemoveColor.InnerNephewLeftOk | mac/Compiler/ToolChains/mips-netbsd-elf/include/sys/tree.h:499-508 | Red inner nephew only: a rotation at the sibling gives the outer case. |
| RbRemove.Successor | mac/Compiler/ToolChains/mips-netbsd-elf/include/sys/tree.h:568-570 | The descent ends at the leftmost node of the right subtree. |
| RbRemove.StandInFlat | mac/Compiler/ToolChains/mips-netbsd-elf/include/sys/tree.h:566-596 | Putting the successor in the node's place takes exactly that node out of the sequence, also where the successor is the right child itself. |
| RbRemove.ParentAfter | mac/Compiler/ToolChains/mips-netbsd-elf/include/sys/tree.h:584-585 | The place left empty hangs below the successor itself exactly where its parent was the removed node, which is why the code resets the parent. |
| RbRemove.Remove | mac/Compiler/ToolChains/mips-netbsd-elf/include/sys/tree.h:556-622 | Removing any node of the tree takes out that node and no other from the sequence, restores all conditions with at most three rotations, and returns the node; the steps to the successor and the fix-up rounds each stay within 2 lg(n + 1); it writes nothing but the four fields of the red-black entry. |
| RbSearch.Find | mac/Compiler/ToolChains/mips-netbsd-elf/include/sys/tree.h:659-673 | Returns an equal node, or null exactly when there is none, within 2 lg(n + 1) comparisons. |
| RbSearch.NFind | mac/Compiler/ToolChains/mips-netbsd-elf/include/sys/tree.h:678-695 | Returns the first node not below the key, or null exactly when all are below, within 2 lg(n + 1) comparisons. |
| RbSearch.MinMax | mac/Compiler/ToolChains/mips-netbsd-elf/include/sys/tree.h:745-757 | The first node for a negative argument, the last one otherwise, null in an empty tree, within 2 lg(n + 1) steps. |
| RbIterate.Next | mac/Compiler/ToolChains/mips-netbsd-elf/include/sys/tree.h:700-718 | The node at the next index of the sequence, null after the last, found over parent links, of which it follows at most 2 lg(n + 1). |
| RbTour.NextLean | mac/Compiler/ToolChains/mips-netbsd-elf/include/sys/tree.h:700-718 | How many links that is: two, and the change of the lean, the number of left links less that of right links from the root; after the last node the climb to the root. |
| RbIterate.Prev | mac/Compiler/ToolChains/mips-netbsd-elf/include/sys/tree.h:723-741 | The node at the index before, null before the first, with the same bound. |
| RbIterate.NextThenPrev | mac/Compiler/ToolChains/mips-netbsd-elf/include/sys/tree.h:697-741 | Going on and back returns to the same node, away from the end. |
| RbIterate.PrevThenNext | mac/Compiler/ToolChains/mips-netbsd-elf/include/sys/tree.h:697-741 | Going back and on returns to the same node, away from the start. |
| RbIterate.Foreach | mac/Compiler/ToolChains/mips-netbsd-elf/include/sys/tree.h:771-774 | The loop body sees the whole ascending sequence, each node once; from the root to the end the loop follows exactly 2 (n - 1) links, that is, every link of the tree twice. |
| RbIterate.ForeachReverse | mac/Compiler/ToolChains/mips-netbsd-elf/include/sys/tree.h:786-789 | The loop body sees the reverse of that sequence, and follows as many links. |
| RbIterate.ForeachSafe | mac/Compiler/ToolChains/mips-netbsd-elf/include/sys/tree.h:781-784 | With a body that removes any chosen nodes, every original node is still seen once and in order, and exactly the others remain. |
| RbIterate.DropStep | mac/Compiler/ToolChains/mips-netbsd-elf/include/sys/tree.h:781-784 | The removal of the current node leaves the saved successor in its place. |
| RbIterate.ForeachReverseSafe | mac/Compiler/ToolChains/mips-netbsd-elf/include/sys/tree.h:796-799 | The same backwards, with the saved predecessor. |
| RbRun.Run | mac/Compiler/ToolChains/mips-netbsd-elf/include/sys/tree.h:556-757 | Any run of insert, find, find-then-remove, minimum and maximum, from any valid tree, gives the results and the contents of an ordered set, and keeps all conditions; a removal answers with the very node that leaves the set. |
| BothTrees.RunRedBlack | mac/Compiler/ToolChains/mips-netbsd-elf/include/sys/tree.h:556-757 | Elements can be in a red-black tree and in a splay tree at once: any run on the red-black tree leaves the splay tree as it is, because the copy of the entry at line 586 and every other write stay within the red-black entry. |
| TopDownSplay.RotateRight | mac/Compiler/ToolChains/mips-netbsd-elf/include/sys/tree.h:86-90 | The rotation at the root keeps the sequence and leaves both side trees alone. |
| TopDownSplay.LinkLeft | mac/Compiler/ToolChains/mips-netbsd-elf/include/sys/tree.h:98-102 | The root and its right subtree go to the right side tree, the left subtree becomes the tree. |
| TopDownSplay.LinkRight | mac/Compiler/ToolChains/mips-netbsd-elf/include/sys/tree.h:104-108 | The mirror image. |
| TopDownSplay.AssembledInOrder | mac/Compiler/ToolChains/mips-netbsd-elf/include/sys/tree.h:110-115 | Reassembly puts the left side tree, the tree and the right side tree in sequence. |
| TopDownSplay.Assemble | mac/Compiler/ToolChains/mips-netbsd-elf/include/sys/tree.h:110-115 | The four writes through the dummy node link exactly that tree, without the dummy. |
| TopDownSplay.ArrivedParted | mac/Compiler/ToolChains/mips-netbsd-elf/include/sys/tree.h:216-239 | Where the loop stops, everything left of the root is below the key and everything right of it above. |
| TopDownSplay.Splay | mac/Compiler/ToolChains/mips-netbsd-elf/include/sys/tree.h:208-240 | Keeps the exact sequence, terminates, and leaves a root with only smaller keys on its left and only greater keys on its right: the equal node if there is one, otherwise the predecessor or the successor of the key; the shape is the one of a recursive account, in at most one round more than its steps. |
| SplayPart.PartCost | mac/Compiler/ToolChains/mips-netbsd-elf/include/sys/tree.h:47-49 | The access lemma for this top-down splay: two to the number of steps, times the product of all subtree sizes afterwards, is at most n^3 times that product before; that is, an amortized cost of at most 3 lg n. |
| SplayCost.SplayedPaid | mac/Compiler/ToolChains/mips-netbsd-elf/include/sys/tree.h:47-49 | One splay of n nodes takes at most 1 + 3 lg n rounds, amortized, for every comparison function. |
| SplayCost.OpPaid | mac/Compiler/ToolChains/mips-netbsd-elf/include/sys/tree.h:47-49 | Any insert, remove, find, minimum or maximum on n nodes costs at most 2 + 6 lg(n + 1) rounds, amortized. |
| SplayCost.RunPaid | mac/Compiler/ToolChains/mips-netbsd-elf/include/sys/tree.h:47-49 | A run of m operations on any tree that stays below n nodes takes at most m (2 + 6 lg n) rounds beyond the potential at the start. |
| SplayCost.Balance | mac/Compiler/ToolChains/mips-netbsd-elf/include/sys/tree.h:47-49 | The Balance Theorem: from an empty tree, m operations with fewer than n insertions among them take at most m (2 + 6 lg n) rounds. |
| SplayCost.WeightBound | mac/Compiler/ToolChains/mips-netbsd-elf/include/sys/tree.h:47-49 | The potential of a tree of n nodes is at most n lg n. |
| SplayIterate.Ends | mac/Compiler/ToolChains/mips-netbsd-elf/include/sys/tree.h:245-276 | The loop, taken round by round, reaches a `break` if and only if its argument is not zero; with zero no number of rounds changes anything. |
| SplayIterate.SplayMinMax | mac/Compiler/ToolChains/mips-netbsd-elf/include/sys/tree.h:245-276 | For an argument that is not zero the first (last) node becomes the root without a left (right) child, in the round in which the loop of `Ends` stops. |
| SplayIterate.LoopPart | mac/Compiler/ToolChains/mips-netbsd-elf/include/sys/tree.h:245-276 | What that loop comes to is a splay to a key below (above) all others, in at most one round more than its steps. |
| SplayIterate.MinMax | mac/Compiler/ToolChains/mips-netbsd-elf/include/sys/tree.h:152-156 | Returns the first or the last node, null in an empty tree, and keeps the sequence; shape and rounds are those of one splay of the account. |
| SplayTree.Find | mac/Compiler/ToolChains/mips-netbsd-elf/include/sys/tree.h:127-135 | Returns the equal node, or null exactly when there is none; only the shape changes. |
| SplayTree.Insert | mac/Compiler/ToolChains/mips-netbsd-elf/include/sys/tree.h:163-184 | Returns the equal node and keeps the sequence, or puts the new node in at one index of the ascending sequence. |
| SplayRemove.NothingRight | mac/Compiler/ToolChains/mips-netbsd-elf/include/sys/tree.h:196-200 | After the second splay the root of the left part has no right child, so hanging the saved right part there loses nothing. |
| SplayRemove.Remove | mac/Compiler/ToolChains/mips-netbsd-elf/include/sys/tree.h:187-205 | Takes out exactly the equal node and returns the argument, which is that node if and only if it was in the tree; null and an unchanged sequence if there is none. |
| SplayRemove.RemoveByTwin | mac/Compiler/ToolChains/mips-netbsd-elf/include/sys/tree.h:187-205 | A removal that returns a node other than the one it has taken out: the argument has the same key and is not linked. |
| SplayIterate.Next | mac/Compiler/ToolChains/mips-netbsd-elf/include/sys/tree.h:138-149 | Returns the node at the next index although the tree is splayed on the way; the shape and the rounds of the splay are those of the account, and the links followed afterwards are counted. |
| SplayWalk.WalkPaid | mac/Compiler/ToolChains/mips-netbsd-elf/include/sys/tree.h:138-149 | Those links are at most twice the steps of the splay that the next access to the returned node makes: where each call is asked for what the one before has returned, they are paid for. |
| SplayWalk.RootUnpaid | mac/Compiler/ToolChains/mips-netbsd-elf/include/sys/tree.h:138-149 | Where the next access is to the root again, the links are paid for if and only if there are none. |
| SplayWalk.StuckRun | mac/Compiler/ToolChains/mips-netbsd-elf/include/sys/tree.h:47-49 | Otherwise they are not: from an empty tree, 2 r + 1 insertions in ascending order and a search for the first element lead to a tree that SPLAY_NEXT at the root leaves as it is while it follows r links. |
| SplayIterate.RepeatNext | mac/Compiler/ToolChains/mips-netbsd-elf/include/sys/tree.h:138-149 | Called at the root, SPLAY_NEXT never changes the tree, so m calls follow m times the same links. |
| SplayRun.SlowNext | mac/Compiler/ToolChains/mips-netbsd-elf/include/sys/tree.h:138-184 | A head built from nothing by 2 r + 2 calls, on which m calls of SPLAY_NEXT follow m r links. |
| SplayIterate.Foreach | mac/Compiler/ToolChains/mips-netbsd-elf/include/sys/tree.h:290-293 | Sees every node once in ascending order, although every step reshapes the tree; all the links that its calls of SPLAY_NEXT follow are at most twice the rounds of all its splays, which for n nodes are at most (n + 1) (1 + 3 lg n) beyond the potential at the start. |
| SplayRun.Run | mac/Compiler/ToolChains/mips-netbsd-elf/include/sys/tree.h:127-276 | Any run of insert, remove, find, minimum and maximum, from any tree, gives the results and the contents of an ordered set, where a removal answers with its argument; its shape and its rounds are those of the account that the amortized bound is about. |
| BothTrees.RunSplay | mac/Compiler/ToolChains/mips-netbsd-elf/include/sys/tree.h:127-276 | And any run on the splay tree leaves the red-black tree as it is. |
| OrderedSet.OneEqual | mac/Compiler/ToolChains/mips-netbsd-elf/include/sys/tree.h:127-135 | In an ascending sequence an equal element is the only one. |
| TailQueue.Head.InsertHead | mac/Compiler/ToolChains/mips-netbsd-elf/include/sys/queue.h:797-808 | Adds at the front and keeps every back link and the address of the final link, also in an empty queue. |
| TailQueue.Head.InsertTail | mac/Compiler/ToolChains/mips-netbsd-elf/include/sys/queue.h:810-818 | Adds at the end through the stored address of the final link. |
| TailQueue.Head.InsertAfter | mac/Compiler/ToolChains/mips-netbsd-elf/include/sys/queue.h:772-785 | Adds behind a given element. |
| TailQueue.Head.InsertBefore | mac/Compiler/ToolChains/mips-netbsd-elf/include/sys/queue.h:787-795 | Adds in front of a given element without knowing the head, also when the element is the first. |
| TailQueue.Head.Remove | mac/Compiler/ToolChains/mips-netbsd-elf/include/sys/queue.h:828-844 | Takes out exactly the given element. |
| TailQueue.Head.Stitched | mac/Compiler/ToolChains/mips-netbsd-elf/include/sys/queue.h:772-818 | Setting the four links around a new element is enough to have it at that index. |
| TailQueue.Head.Unstitched | mac/Compiler/ToolChains/mips-netbsd-elf/include/sys/queue.h:828-844 | Leading two links past an element is enough to take it out. |
| TailQueue.Head.Concat | mac/Compiler/ToolChains/mips-netbsd-elf/include/sys/queue.h:711-720 | Appends the second queue and empties it, in all combinations of empty queues. |
| TailQueue.Head.Swap | mac/Compiler/ToolChains/mips-netbsd-elf/include/sys/queue.h:846-861 | Exchanges two queues; heads left empty refer to themselves again. |
| TailQueue.Last | mac/Compiler/ToolChains/mips-netbsd-elf/include/sys/queue.h:820-821 | Reading the last element's links as if they were a head gives the last element, null in an empty queue. |
| TailQueue.Prev | mac/Compiler/ToolChains/mips-netbsd-elf/include/sys/queue.h:825-826 | The same reading gives the previous element, null at the first, without the head. |
| TailQueue.Foreach | mac/Compiler/ToolChains/mips-netbsd-elf/include/sys/queue.h:726-729 | Visits the elements in order, each once. |
| TailQueue.ForeachReverse | mac/Compiler/ToolChains/mips-netbsd-elf/include/sys/queue.h:746-749 | Visits exactly the reverse. |
| TailQueue.SameItems | mac/Compiler/ToolChains/mips-netbsd-elf/include/sys/queue.h:624-647 | The links of a well-formed queue determine its elements and their order. |
| SimpleQueue.Head.InsertHead | mac/Compiler/ToolChains/mips-netbsd-elf/include/sys/queue.h:383-387 | Adds at the front and keeps the address of the final link. |
| SimpleQueue.Head.InsertTail | mac/Compiler/ToolChains/mips-netbsd-elf/include/sys/queue.h:389-393 | Adds at the end. |
| SimpleQueue.Head.InsertAfter | mac/Compiler/ToolChains/mips-netbsd-elf/include/sys/queue.h:377-381 | Adds behind a given element. |
| SimpleQueue.Head.Remove | mac/Compiler/ToolChains/mips-netbsd-elf/include/sys/queue.h:402-414 | Searches for the element before and takes out exactly the given element. |
| SimpleQueue.Head.RemoveAfter | mac/Compiler/ToolChains/mips-netbsd-elf/include/sys/queue.h:416-420 | Takes out the element behind a given one. |
| SimpleQueue.Head.RemoveHead | mac/Compiler/ToolChains/mips-netbsd-elf/include/sys/queue.h:422-426 | Takes out the first element. |
| SimpleQueue.Head.RemoveHeadUntil | mac/Compiler/ToolChains/mips-netbsd-elf/include/sys/queue.h:428-431 | Takes out everything up to and including the given element. |
| SimpleQueue.Head.Concat | mac/Compiler/ToolChains/mips-netbsd-elf/include/sys/queue.h:340-346 | Appends the second queue and empties it. |
| SimpleQueue.Head.Swap | mac/Compiler/ToolChains/mips-netbsd-elf/include/sys/queue.h:433-444 | Exchanges two queues; a head left empty gets the address of its own first link. |
| SimpleQueue.Head.Last | mac/Compiler/ToolChains/mips-netbsd-elf/include/sys/queue.h:395-398 | The last element, found from the address of its link; null in an empty queue. |
| LinkedList.Head.InsertHead | mac/Compiler/ToolChains/mips-netbsd-elf/include/sys/queue.h:583-589 | Adds at the front and keeps every back link. |
| LinkedList.Head.InsertAfter | mac/Compiler/ToolChains/mips-netbsd-elf/include/sys/queue.h:566-573 | Adds behind a given element. |
| LinkedList.Head.InsertBefore | mac/Compiler/ToolChains/mips-netbsd-elf/include/sys/queue.h:575-581 | Adds in front of a given element without the head. |
| LinkedList.Head.Remove | mac/Compiler/ToolChains/mips-netbsd-elf/include/sys/queue.h:598-609 | Takes out exactly the given element without the head. |
| LinkedList.Head.Concat | mac/Compiler/ToolChains/mips-netbsd-elf/include/sys/queue.h:521-536 | Appends the second list, with the back link of its first element, and empties it. |
| LinkedList.Head.Swap | mac/Compiler/ToolChains/mips-netbsd-elf/include/sys/queue.h:611-619 | Exchanges two lists and the back links of their first elements. |
| LinkedList.Prev | mac/Compiler/ToolChains/mips-netbsd-elf/include/sys/queue.h:593-596 | The previous element, or null at the first. |
| SimpleList.Head.Concat | mac/Compiler/ToolChains/mips-netbsd-elf/include/sys/queue.h:216-227 | Appends the second list and empties it, in all combinations of empty lists. |
| SimpleList.Head.InsertHead | mac/Compiler/ToolChains/mips-netbsd-elf/include/sys/queue.h:267-270 | Adds at the front. |
| SimpleList.Head.InsertAfter | mac/Compiler/ToolChains/mips-netbsd-elf/include/sys/queue.h:262-265 | Adds behind a given element. |
| SimpleList.Head.Remove | mac/Compiler/ToolChains/mips-netbsd-elf/include/sys/queue.h:274-286 | Searches for the element before and takes out exactly the given element. |
| SimpleList.Head.RemoveAfter | mac/Compiler/ToolChains/mips-netbsd-elf/include/sys/queue.h:288-291 | Takes out the element behind a given one. |
| SimpleList.Head.RemoveHead | mac/Compiler/ToolChains/mips-netbsd-elf/include/sys/queue.h:293-295 | Takes out the first element. |
| BinTime.Bintime.AddX | mac/Compiler/ToolChains/mips-netbsd-elf/include/sys/time.h:68-77 | The 128-bit value grows by the addend, the carry included, modulo 2^128. |
| BinTime.Bintime.Add | mac/Compiler/ToolChains/mips-netbsd-elf/include/sys/time.h:79-89 | The value becomes the sum modulo 2^128; adding a time to itself gives one second more where the fraction carries, and is right if and only if the fraction is below one half. |
| BinTime.TwiceExact | mac/Compiler/ToolChains/mips-netbsd-elf/include/sys/time.h:79-89 | The reason for that condition: one second more is never the same value modulo 2^128. |
| BinTime.HalfTwice | mac/Compiler/ToolChains/mips-netbsd-elf/include/sys/time.h:79-89 | Half a second added to itself gives two seconds. |
| BinTime.Bintime.Sub | mac/Compiler/ToolChains/mips-netbsd-elf/include/sys/time.h:91-101 | The value becomes the difference modulo 2^128, also for a time minus itself. |
| BinTime.AddThenSub | mac/Compiler/ToolChains/mips-netbsd-elf/include/sys/time.h:79-101 | Subtracting undoes adding, field by field, even across an overflow; with the same time as both arguments it always ends with zero. |
| BinTime.Partial | mac/Compiler/ToolChains/mips-netbsd-elf/include/sys/time.h:108-109 | Neither partial product leaves 64 bits, for any 32-bit factor. |
| BinTime.Bintime.Mul | mac/Compiler/ToolChains/mips-netbsd-elf/include/sys/time.h:103-113 | The value is multiplied exactly, modulo 2^128. |
| BinTime.LeftOk | mac/Compiler/ToolChains/mips-netbsd-elf/include/sys/time.h:119-122 | A left shift by 1 to 63 bits multiplies by the power of two; the bits put in by `|` meet only clear bits. |
| BinTime.RightOk | mac/Compiler/ToolChains/mips-netbsd-elf/include/sys/time.h:123-126 | A right shift by 1 to 63 bits is floor division, for negative seconds too. |
| BinTime.Bintime.Shift | mac/Compiler/ToolChains/mips-netbsd-elf/include/sys/time.h:115-128 | Both together, for every shift from -63 to 63. |
| BinTime.WrapExact | mac/Compiler/ToolChains/mips-netbsd-elf/include/sys/time.h:63-66 | A result is exact if and only if the seconds have room for it. |
| TimeConvert.CompareByValue | mac/Compiler/ToolChains/mips-netbsd-elf/include/sys/time.h:132-135 | Comparing field by field compares the values. |
| TimeConvert.SbtSec | mac/Compiler/ToolChains/mips-netbsd-elf/include/sys/time.h:144-149 | The whole seconds, rounded down, always fit. |
| TimeConvert.BtToSbtDown | mac/Compiler/ToolChains/mips-netbsd-elf/include/sys/time.h:151-156 | The result is the value rounded down if and only if the seconds fit in 32 bits. |
| TimeConvert.BtToSbtMonotone | mac/Compiler/ToolChains/mips-netbsd-elf/include/sys/time.h:151-156 | Keeps the order. |
| TimeConvert.SbtToBtExact | mac/Compiler/ToolChains/mips-netbsd-elf/include/sys/time.h:158-166 | Exact for every argument. |
| TimeConvert.SbtRoundTrip | mac/Compiler/ToolChains/mips-netbsd-elf/include/sys/time.h:151-166 | From `sbintime_t` to `bintime` and back is the identity. |
| TimeConvert.BtRoundTrip | mac/Compiler/ToolChains/mips-netbsd-elf/include/sys/time.h:151-166 | From `bintime` to `sbintime_t` and back loses less than one unit. |
| TimeConvert.BtToTsDown | mac/Compiler/ToolChains/mips-netbsd-elf/include/sys/time.h:182-189 | The nanoseconds are in range and never rounded up; the loss is below two nanoseconds. |
| TimeConvert.BtToTsFloor | mac/Compiler/ToolChains/mips-netbsd-elf/include/sys/time.h:182-189 | The result is the last whole nanosecond if and only if the dropped low half of the fraction would not have carried. |
| TimeConvert.BtToTsOneShort | mac/Compiler/ToolChains/mips-netbsd-elf/include/sys/time.h:182-189 | An input for which it is one nanosecond short. |
| TimeConvert.BtToTsMonotone | mac/Compiler/ToolChains/mips-netbsd-elf/include/sys/time.h:182-189 | Keeps the order. |
| TimeConvert.TsToBtDown | mac/Compiler/ToolChains/mips-netbsd-elf/include/sys/time.h:191-198 | Never rounds up; the loss is below one nanosecond. |
| TimeConvert.TsToBtMonotone | mac/Compiler/ToolChains/mips-netbsd-elf/include/sys/time.h:191-198 | Keeps the order strictly, in both directions. |
| TimeConvert.TsRoundTrip | mac/Compiler/ToolChains/mips-netbsd-elf/include/sys/time.h:182-198 | There and back keeps whole seconds and loses exactly one nanosecond otherwise. |
| TimeConvert.BtToTvDown | mac/Compiler/ToolChains/mips-netbsd-elf/include/sys/time.h:200-206 | The microseconds are in range and never rounded up; the loss is below two microseconds. |
| TimeConvert.BtToTvFloor | mac/Compiler/ToolChains/mips-netbsd-elf/include/sys/time.h:200-206 | The result is the last whole microsecond if and only if the dropped low half of the fraction would not have carried. |
| TimeConvert.BtToTvOneShort | mac/Compiler/ToolChains/mips-netbsd-elf/include/sys/time.h:200-206 | An input for which it is one microsecond short. |
| TimeConvert.BtToTvMonotone | mac/Compiler/ToolChains/mips-netbsd-elf/include/sys/time.h:200-206 | Keeps the order. |
| TimeConvert.TvToBtDown | mac/Compiler/ToolChains/mips-netbsd-elf/include/sys/time.h:208-215 | Never rounds up; the loss is below one microsecond. |
| TimeConvert.TvToBtMonotone | mac/Compiler/ToolChains/mips-netbsd-elf/include/sys/time.h:208-215 | Keeps the order strictly, in both directions. |
| TimeConvert.TvRoundTrip | mac/Compiler/ToolChains/mips-netbsd-elf/include/sys/time.h:200-215 | There and back keeps whole seconds and loses exactly one microsecond otherwise. |
| TimeConvert.SbtToTsFloor | mac/Compiler/ToolChains/mips-netbsd-elf/include/sys/time.h:217-225 | The result is the last whole nanosecond, in range, for every argument. |
| TimeConvert.SbtToTsMonotone | mac/Compiler/ToolChains/mips-netbsd-elf/include/sys/time.h:217-225 | Keeps the order. |
| TimeConvert.TsToSbtDown | mac/Compiler/ToolChains/mips-netbsd-elf/include/sys/time.h:227-233 | Never rounds up; the loss is below two units, where the seconds fit. |
| TimeConvert.TsToSbtWraps | mac/Compiler/ToolChains/mips-netbsd-elf/include/sys/time.h:227-233 | For seconds that do not fit the result wraps around, and it is right if and only if they fit. |
| TimeConvert.TsToSbtMonotone | mac/Compiler/ToolChains/mips-netbsd-elf/include/sys/time.h:227-233 | Keeps the order. |
| TimeConvert.SbtTsSbt | mac/Compiler/ToolChains/mips-netbsd-elf/include/sys/time.h:217-233 | There and back loses at most 5 units of 2^-32 seconds. |
| TimeConvert.TsSbtTs | mac/Compiler/ToolChains/mips-netbsd-elf/include/sys/time.h:217-233 | From `timespec` and back keeps whole seconds and loses exactly one nanosecond otherwise. |
| TimeConvert.SbtToTvFloor | mac/Compiler/ToolChains/mips-netbsd-elf/include/sys/time.h:235-243 | The result is the last whole microsecond, in range, for every argument. |
| TimeConvert.SbtToTvMonotone | mac/Compiler/ToolChains/mips-netbsd-elf/include/sys/time.h:235-243 | Keeps the order. |
| TimeConvert.TvToSbtDown | mac/Compiler/ToolChains/mips-netbsd-elf/include/sys/time.h:245-251 | Never rounds up; the loss is below two units, where the seconds fit. |
| TimeConvert.TvToSbtWraps | mac/Compiler/ToolChains/mips-netbsd-elf/include/sys/time.h:245-251 | For seconds that do not fit the result wraps around, and it is right if and only if they fit. |
| TimeConvert.TvToSbtMonotone | mac/Compiler/ToolChains/mips-netbsd-elf/include/sys/time.h:245-251 | Keeps the order. |
| TimeConvert.SbtTvSbt | mac/Compiler/ToolChains/mips-netbsd-elf/include/sys/time.h:235-251 | There and back loses at most 4295 units of 2^-32 seconds. |
| TimeConvert.TvSbtTv | mac/Compiler/ToolChains/mips-netbsd-elf/include/sys/time.h:235-251 | From `timeval` and back keeps whole seconds and loses exactly one microsecond otherwise. |
| HexText.EncodersAgree | W2Uploader/W2Uploader.cpp:71-75 | Both ways of writing a byte in hexadecimal give its two digits. |
| HexText.DigitTable | SerialPortWindows/utils.cpp:23-29 | The sixteen digits are those of `std::hex`, and the reader has the same table. |
| HexText.HexUnique | SerialPortWindows/utils.cpp:31-34 | A number has only one text without leading zeros, the one that is written. |
| HexText.ToByte | W2Uploader/W2Uploader.cpp:71-75 | The conversion to `unsigned char` keeps a `char` that is not negative and adds 256 to one that is. |
| HexText.HexRoundTrip | SerialPortWindows/utils.cpp:33 | A number read back from its hexadecimal text is the number. |
| Requests.DecodeRender | SerialPortWindows/utils.cpp:31-45 | A request determines its address, its word count and every byte: a decoder recovers them. |
| BoardWriter.Request | SerialPortWindows/utils.cpp:31-45 | The two nested loops build exactly the request for the words in memory, for every 64-bit address and every 32-bit count, negative ones as the bits of their two's complement; for a count of zero or less the text is not terminated and no board can decode it. |
| BoardWriter.WriteBytes | SerialPortMac/utils.cpp:51-56 | Sends adjacent one-word blocks from any 64-bit address on, exactly as many as the size of the buffer rounded up to words; the device that reads them then holds the bytes of memory over that range and is unchanged elsewhere. |
| BoardWriter.WriteBytes16 | SerialPortWindows/utils.cpp:58-70 | Sends adjacent blocks without gap or overlap: one of 64 bytes for each 64 bytes, and for the rest one more if it is 16 bytes or more, single words otherwise; with the same effect on the device. |
| BoardWriter.WriteBytes256 | SerialPortWindows/utils.cpp:72-85 | One block of 1024 bytes for each 1024 bytes, and for the rest one more if it is 256 bytes or more, otherwise the blocks of `write_bytes_16` for it; with the same effect on the device. |
| BoardWriter.SentBounds | SerialPortWindows/utils.cpp:51-85 | All planners cover the buffer, with at most 3, 48 or 768 bytes more. |
| BoardWriter.SentExact | SerialPortWindows/utils.cpp:51-85 | The exact sizes for which a planner stops at the end of the buffer: whole words; for `write_bytes_16` also less than 16 bytes beyond a multiple of 64; for `write_bytes_256` also less than 256 bytes beyond a multiple of 1024. |
| BoardWriter.Overrun | SerialPortWindows/utils.cpp:58-70 | A buffer of 16 bytes, for which 64 bytes of the device are overwritten with what follows the buffer in memory. |
| BoardWriter.Delivered | SerialPortWindows/utils.cpp:51-85 | A device that decodes the requests of any such plan one after the other holds the bytes of memory over the range written and is unchanged elsewhere. |
| BoardWriter.StorePlain | SerialPortWindows/utils.cpp:31-45 | What storing a block means: its bytes in order from its address on, and nothing else changes. |
| BoardWriter.FilledPlain | SerialPortWindows/utils.cpp:51-85 | The same for the whole range of a plan, from its start address once around all addresses. |
| BoardWriter.SameDevice | SerialPortWindows/utils.cpp:51-85 | The three writers, run on three devices in any state, leave the same bytes over the range of the buffer in all of them, those of the buffer, and touch nothing before it or more than 768 bytes behind it. |
| BoardWriter.ReadBack | SerialPortWindows/utils.cpp:31-85 | Decoding what was sent gives exactly the planned blocks, and nothing sent before is lost. |
| W2Uploader.BytesToLittleEndian | W2Uploader/W2Uploader.cpp:77-100 | Fails exactly for sizes that are not whole words; otherwise builds the request of `write_words` for address 10000000. |
| W2Uploader.Compare | W2Uploader/W2Uploader.cpp:77-100 | For the same bytes the two encoders agree if and only if there is at least one word. |
| W2Uploader.Upload | W2Uploader/W2Uploader.cpp:10-69 | Fails exactly for sizes that are not whole words, for a failing flush (nothing is sent in either case) and for a failing write of the start-up commands (those before it have gone out); otherwise succeeds, and what goes out is what the operating system takes of the start-up commands and then of one request for each chunk. |
| W2Uploader.SetUpFlash | W2Uploader/W2Uploader.cpp:102-111 | The console mode and the three flash commands are written in this order, up to the first write that fails. |
| W2Uploader.StartupCommands | W2Uploader/W2Uploader.cpp:67-111 | The five texts, and the three requests that a board reads from them: 40 to 1f800004, then a5 to 1f800b07, then 0 to 10300000. |
| W2Uploader.StartUpWhole | W2Uploader/W2Uploader.cpp:67-111 | On a port that takes everything exactly these five texts go out, in this order. |
| W2Uploader.UploadWhole | W2Uploader/W2Uploader.cpp:10-69 | For a file of bytes and a port that takes everything: the start-up texts and then, in order, one request for each chunk, from which a board reads the address 10000000 and exactly the bytes of the chunk; the chunks together are the file. |
| W2Uploader.AllTaken | W2Uploader/W2Uploader.cpp:102-111 | No start-up write fails if and only if the operating system answers none of them with a negative number. |
| W2Uploader.AllReached | W2Uploader/W2Uploader.cpp:41-45 | Everything has gone out if and only if every single write took its whole buffer. |
| W2Uploader.LostChunk | W2Uploader/W2Uploader.cpp:41-45 | An upload that succeeds although the write of its only chunk has failed. |
| W2Uploader.ChunkSizes | W2Uploader/W2Uploader.cpp:29-36 | Every chunk is 4 to 1024 bytes of whole words, and every chunk but the last is full. |
| W2Uploader.WholeFile | W2Uploader/W2Uploader.cpp:29-55 | The chunks put together are the whole file. |
| W2Uploader.ReadBack | W2Uploader/W2Uploader.cpp:29-55 | A decoder recovers every chunk from its request. |

## Left out

- `RB_AUGMENT`: it does nothing unless the user redefines it.
- `SPLAY_NEXT` among the operations of a run: it has its own bounds, for one call and for a sweep.
- SplayIterate.SplayMinMax: asks for an argument that is not zero, because a method has to end and the loop does not end for zero.
- SplayIterate.MinMax: asks for an argument that is not zero where the tree is not empty, for the same reason.
- The variants of the loops that start from a given element, and `TAILQ_FOREACH_REVERSE_SAFE`.
- The mirrored cases of the red-black fix-ups have lemmas of their own, named `...Right...`, that are not listed again above.
- `SLIST_SWAP`, `SLIST_REMOVE_PREVPTR`, and the plain accessors of the four lists: single assignments and reads.
- The fields of an element after it has been removed from a tree.
- The tracing and trashing of `QUEUE_MACRO_DEBUG`, the kernel's consistency checks, `insque` and `remque`.
- Comparisons that are not a total order, and keys that change while an element is linked.
- Shifts of a `bintime` by 64 bits or more, and signed overflow as such, which C leaves undefined: the model wraps around.
- Sub-second fields out of range in a `timespec` or a `timeval` given to a conversion: the functions cover them, the lemmas ask for a field in range.
- Overflow of a device address, which C leaves undefined: the model wraps around at 64 bits.
- Serial ports as such, acknowledgements (a missing one is only reported), threads, files, and the command that starts the program. A write by the serial port tools always succeeds here; a write by the W2 uploader may fail or be short.
- W2Uploader.Upload: the encoder always sends the address 10000000, so the model is about the payload and not about where the chunks land.
