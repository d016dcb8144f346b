# Verification of the B+ tree, the wire formats and the codecs

This project models four self-contained parts of the server library in Dafny
and proves what each of them is for. `dafny verify dfyconfig.toml` checks all
of it.

* **The B+ tree `stx::btree`** is an index that has to agree with a sorted
  list of pairs. `BTreeNode` is a node in memory, `BTreeTree` the tree as a
  value together with the invariant that `verify_node` and `verify_leaflinks`
  spell out: uniform levels, fill bounds, sorted keys, every separator equal to
  the largest key below its left child. `BTreeBalance`, `BTreeErase` and
  `BTreeInsert` say what removal and insertion do to such a value and prove
  that they keep the invariant and change exactly one pair; `BTreeShape` and
  `BTreeGrow` follow the nodes, the order of the leaves and the node counts.
  `BTreeChain`, `BTreeMemory` and `BTreeRepair` work on nodes in place, and
  `BTreeClass` is the class with its root, its leaf list and its counters.
  `BTreeLeaves` says which slot of which leaf is which position, `BTreeLookup`
  has the searches and both kinds of iterators, `BTreeCopy` the deep copy,
  `dump`, `restore` and `clear`. The slot counts (8 or more) and
  `allow_duplicates` are constants without a value, so every result holds for
  all of them, odd counts included.
* **The compact binary protocol**: `Framing` says what a byte stream means to
  the dispatcher, `Receiving` has the dispatcher and the receiving connection,
  `Chunks` the parser and the writer of a packet's contents, `Delivery` joins
  writer, sender, connection and parser in one run. The two main
  results are that the cuts a stream arrives in make no difference, and that
  everything written at one end is delivered at the other.
* **The HTTP/1.x request parser**: `HttpText` has the splitting of `key=value`
  lists in place, `HttpMessages` what a request text means, `HttpStages` how far
  a part of one leads, `HttpCookies` the cookies of a request, `HttpParsing` the
  parser over growing buffers. Sections 2.1, 3 and 5 of RFC 9112 give the
  syntax. The main results are that the parser undoes the printing of a request,
  whatever follows it, and which requests it undoes when they come in pieces.
* **Codecs and the buffer**: `Utf8` (section 3 of RFC 3629, and the five- and
  six-byte forms of section 2 of RFC 2279), `Base64` (sections 4 and 5 of
  RFC 4648), `Replacing` and `AutoBuffers` for the growing buffer everything
  above stands on.

An operation that changes state is a method that works in place. Its
contract equates the new state with a function of the old one, and the lemmas
say what that function means. The tree a `BTree` object stands for is the
ghost field `shape`; `Holds` ties it to the nodes in memory, `Linked` to the
leaf list, and `Structured` to the counters.

## What came out

* Erasing hands down cousins that are not always the true neighbours: at slot
  0 the left one is `childid[slotuse - 1]` of the left node, one short of its
  last child. `DecideLocal` proves that this never does harm, because whatever
  the six cases choose is a merge or a shift with a child of the same parent,
  and so a reported merge always concerns the caller's `slot` or `slot + 1`.
* The special case that writes `*splitkey = key` after a leaf has been split
  is never needed and never reached for its purpose: the key's lower slot is
  below the split point then, so it is never the last slot. It fires only when
  nothing was split, on a variable the caller does not read, and so no
  separator is ever corrupted.
* Every leaf that is restored is first overwritten with the pointers of the
  image. The chain comes out right because the first leaf of an image has no
  predecessor and the last one no successor, and every other pointer is
  written again when the next leaf is appended.
* A packet longer than 65535 bytes of payload is cut off by the size field;
  `PacketComesThrough` says exactly which payloads come through. Short and
  integer chunks are written in host order and read in network order;
  `ShortTurnedRound` and `IntegerTurnedRound` say exactly which values come
  through (little-endian hosts).
* A restored image that is cut off behind its first node is not refused: a
  child is missing then. `Restore` says that there is a tree if and only if the
  whole image was there.
* `replace` with a shorter text passes over the text behind each match, as far
  as the match is longer than the replacement, and its bound wraps when less
  than a match is left. `SameMatches` says when the places replaced are those of
  replace-all; the contents may be equal without that (`OtherMatches`), but only
  if as many matches are replaced (`SameCount`). `WrapsByCount` says when the
  bound wraps, by the number of matches.
* Turning an iterator at the front of a leaf into a reverse one loses its
  position unless the leaf is the first one. `LostPositions` builds a tree with
  such an iterator, and one with a reverse iterator that is lost the same way.
* The parser looks at the byte behind the path, even if the buffer ends there.
  When that byte is a question mark the size of the rest falls below zero:
  `LeftBelowZero` says when, and `GET / ` is such a text. No printed request is
  one, since its version line follows the path.
* A printed request cut in two is read as printed if and only if the second part
  does not begin in the middle of a line end: the parser takes what is left of
  the line end for the next field name (`CutMatters`). `HeadCut` says for every
  text and every cut what comes of it, `OfferHead` that cuts elsewhere, however
  many, make no difference. `GET / H`, CR is a part behind which a cut does.
* Each call takes as much of a body as was announced, not as much as is missing.
  A body in pieces is as announced if and only if the piece that completes it
  is the first one or brings no more than is missing (`BodyAsAnnounced`). Of
  `ab` and `cdGE` six bytes are taken for four (`TooMuchTaken`).
* With `Content-Length: 0` nothing of what follows the header is taken, but the
  request is ready only if nothing follows (`TakesBody` in `ProcessData`).
* A number in a packet is read by its type; its announced size only has to be
  there. If its bytes are not, they are taken for chunks (`NumberMissing`).
* `base64_encode` counts its output in an `int`, so it ends at 1610612733 bytes,
  well below 2^31.
* `base64_decode` sizes its result by the length of the text rounded down to
  whole groups. `QQ` already needs one byte more than that; `RoomExactly` says
  which texts have room. Padded texts always have.
* `utf8_decode` undoes `utf8_encode` exactly on the code points whose lead byte
  carries a payload bit. The comment in the code speaks of overlong
  sequences only, but U+0800 to U+0FFF, for instance, are lost as well. A
  sequence that breaks off is not a question mark: it comes out as the bits
  there are (`BrokenSequence`).
* A dispatcher that meets a packet type without a handler leaves its loop. The
  packet counts as processed nevertheless, and the connection calls again, so
  later packets are not held up.

## Model

| member | source | states |
|---|---|---|
| `BTreeNode.Node.InitLeaf` | external/include/stx/btree.h:294-299 | an empty leaf at level 0 with all its slots and no neighbours |
| `BTreeNode.Node.InitInner` | external/include/stx/btree.h:252-256 | an empty inner node at its level with one more child slot than key slots |
| `BTreeNode.Node.CopyLeafSlots` | external/include/stx/btree.h:2687-2691 | the copy loop moves exactly a stretch of keys and data, also towards the front within one node, and leaves every other slot alone |
| `BTreeNode.Node.CopyInnerSlots` | external/include/stx/btree.h:2836-2842 | the same for keys and children |
| `BTreeNode.Node.RaiseLeafSlots` | external/include/stx/btree.h:2895-2899 | the backward loop moves a stretch up within a node without losing a slot that it overlaps |
| `BTreeNode.Node.RaiseInnerSlots` | external/include/stx/btree.h:2946-2951 | the same for keys and children, with the child behind the last key |
| `BTreeNode.Node.RemoveInnerSlot` | external/include/stx/btree.h:2595-2600 | removes the key in front of a child and the child, and closes both gaps |
| `BTreeItems.FindLower` | external/include/stx/btree.h:1504-1545 | the specification of the search: all keys in front are smaller, the key at the slot is not |
| `BTreeItems.FindUpper` | external/include/stx/btree.h:1551-1592 | all keys in front are not greater, the key at the slot is |
| `BTreeChain.FindLowerSlot` | external/include/stx/btree.h:1504-1545 | the search that stops at `lo == hi` and then compares once more finds that slot in every sorted node, the empty one included |
| `BTreeChain.FindUpperSlot` | external/include/stx/btree.h:1551-1592 | likewise for the upper slot |
| `BTreeTree.ContentsSorted` | external/include/stx/btree.h:3073-3155 | a valid subtree holds its pairs in order, and a subtree below the root is not empty |
| `BTreeTree.FlatSorted` | external/include/stx/btree.h:3105-3140 | separators that are maxima of their left children put the contents of all children in one order |
| `BTreeItems.RemoveFirstStep` | external/include/stx/btree.h:2358-2369 | removing the first pair of a key lowers its count by one and commutes with removing all of them |
| `BTreeBalance.MergePairOk` | external/include/stx/btree.h:2674-2749 | two neighbours with fewer than two minimum fills between them merge into one node that is not overfull, with the same pairs in order |
| `BTreeBalance.CutOk` | external/include/stx/btree.h:2751-2970 | sharing out two neighbours at any point within the bounds conserves their pairs, the separator of inner nodes included, and gives the right new separator |
| `BTreeBalance.ShiftLeftCuts` | external/include/stx/btree.h:2755-2857 | shifting left is such a cut, half the surplus behind the left node's fill |
| `BTreeErase.DecideLocal` | external/include/stx/btree.h:2455-2520 | whatever the six cases decide, it concerns two children of the same parent that stand next to each other, and a merge has room |
| `BTreeErase.ChildCousins` | external/include/stx/btree.h:2535-2551 | the cousins handed down are nodes of the right level outside of the subtree, and their parent is this node exactly when the child has a neighbour here on that side |
| `BTreeErase.RebalanceOk` | external/include/stx/btree.h:2611-2668 | any of the repairs restores the invariant and conserves the contents; the parent may end one slot short |
| `BTreeErase.MergeAtOk` | external/include/stx/btree.h:2584-2609 | taking out the merged child, with the separator written again just above the leaves, keeps the parent's separators right |
| `BTreeErase.StepOk` | external/include/stx/btree.h:2555-2582 | the parent around a child that lost its first pair with the key: contents, separators and the last key passed on |
| `BTreeErase.EraseNode` | external/include/stx/btree.h:2400-2672 | for every valid subtree and cousins, removal finds the key exactly when it is there, removes its first pair, keeps the invariant up to one missing slot, and reports a changed last key |
| `BTreeErase.EraseOneOk` | external/include/stx/btree.h:2335-2354 | for every valid tree, the result is a valid tree, or none, without the first pair of the key; nothing changes when there is no such pair |
| `BTreeShape.EraseNodeShape` | external/include/stx/btree.h:2400-2672 | removal never makes two places of a tree share a node, and takes no node from elsewhere |
| `BTreeShape.MergeAtShape` | external/include/stx/btree.h:2584-2600 | a merge takes exactly one leaf out of the leaf order, or leaves it alone and drops one inner node |
| `BTreeMemory.MergeInner` | external/include/stx/btree.h:2708-2749 | in memory, the left node ends with both nodes' slots around the separator, the right one with none |
| `BTreeMemory.ShiftLeftLeaf` | external/include/stx/btree.h:2755-2796 | both leaves and the parent's separator after the shift |
| `BTreeMemory.ShiftLeftInner` | external/include/stx/btree.h:2802-2857 | both nodes and the parent's separator after the shift |
| `BTreeMemory.ShiftRightLeaf` | external/include/stx/btree.h:2862-2911 | both leaves and the parent's separator after the shift |
| `BTreeMemory.ShiftRightInner` | external/include/stx/btree.h:2916-2970 | both nodes and the parent's separator after the shift |
| `BTreeRepair.TakeFromRight` | external/include/stx/btree.h:2755-2857 | in a whole parent, shifting left gives the parent with the two children shared out anew |
| `BTreeRepair.TakeFromLeft` | external/include/stx/btree.h:2862-2970 | the same for shifting right |
| `BTreeChain.Unlink` | external/include/stx/btree.h:2694-2698 | taking a leaf out of the doubly linked list leaves a well-formed list, and tells whether it was the tail |
| `BTreeChain.LinkAfter` | external/include/stx/btree.h:2206-2224 | putting a new leaf behind another leaves a well-formed list |
| `BTreeClass.ChooseAction` | external/include/stx/btree.h:2478-2519 | the cases on node pointers decide as the value-level rule does |
| `BTreeClass.BTree.MergeLeaves` | external/include/stx/btree.h:2677-2703 | the left leaf holds both leaves' pairs, the right one is empty and out of the list, the tail is right |
| `BTreeClass.BTree.Repair` | external/include/stx/btree.h:2455-2520 | every case leaves memory holding the repaired parent, or one whose child `slot` or `slot + 1` is emptied and waits to be removed |
| `BTreeClass.BTree.RemoveMerged` | external/include/stx/btree.h:2584-2609 | finding the emptied child by its `slotuse`, freeing it and closing the gap leaves memory holding the merged parent, with one node less counted at the right level |
| `BTreeClass.BTree.EraseBelow` | external/include/stx/btree.h:2524-2671 | the recursion refines the value-level removal: memory, leaf list and both counters |
| `BTreeClass.BTree.EraseOne` | external/include/stx/btree.h:2335-2354 | keeps the whole invariant, returns true exactly when the key is present and removes its first pair |
| `BTreeClass.BTree.Erase` | external/include/stx/btree.h:2358-2369 | removes all pairs with the key and returns how many there were, with and without duplicates |
| `BTreeInsert.SplitInnerIsCut` | external/include/stx/btree.h:2072-2139 | for every slot count and insertion slot, the split inner node with the pending child placed is the unsplit node with that child inserted, cut at one key, and both halves are within the fill bounds |
| `BTreeInsert.InsertInLeafOk` | external/include/stx/btree.h:2143-2189 | the leaf case: refused duplicate, free slot, or split, with a split key equal to the left half's last key whatever the special case writes |
| `BTreeInsert.InsertNodeOk` | external/include/stx/btree.h:2054-2190 | for every valid subtree, insertion adds exactly the pair, keeps the invariant in the one or two nodes it returns, and points at the pair |
| `BTreeInsert.InsertStartOk` | external/include/stx/btree.h:2008-2045 | for every tree, empty or not: a valid tree with exactly one more pair, or the same tree when the key is present and duplicates are not allowed |
| `BTreeGrow.MakeLeafRoom` | external/include/stx/btree.h:2165-2174 | the loop from the back stops at the upper bound of the key with a gap there |
| `BTreeGrow.PutInnerSlot` | external/include/stx/btree.h:2125-2138 | key and child are inserted at the slot and behind it, all others keep their order |
| `BTreeGrow.SplitInnerNode` | external/include/stx/btree.h:2234-2267 | the two nodes and the key between them, with the split point moved when the smaller half would underflow |
| `BTreeGrow.SplitAndPlace` | external/include/stx/btree.h:2076-2138 | in memory, all three ways to place the pending child after a split |
| `BTreeClass.BTree.SplitLeafNode` | external/include/stx/btree.h:2194-2228 | both halves, the split key, the leaf list and the leaf count |
| `BTreeClass.BTree.InsertAtLeaf` | external/include/stx/btree.h:2143-2189 | refines the leaf case in memory |
| `BTreeClass.BTree.InsertDescend` | external/include/stx/btree.h:2054-2190 | refines the value-level insertion: memory, leaf list, counters, fresh nodes only |
| `BTreeClass.BTree.RaiseRoot` | external/include/stx/btree.h:2019-2030 | a split root gets a parent with one key |
| `BTreeClass.BTree.Insert` | external/include/stx/btree.h:2008-2045 | keeps the whole invariant; the pair is put at one position p among the pairs, or nothing changes; the returned leaf and slot are position p, which holds the key |
| `BTreeLeaves.InsertPlace` | external/include/stx/btree.h:2054-2190 | for every valid subtree, the leaf and slot handed up by the descent are, in the leaves after all splits, the position at which the pair was put, or at which the key already is |
| `BTreeLeaves.InsertLocated` | external/include/stx/btree.h:2008-2045 | and so they are in the whole tree, under a new root too |
| `BTreeClass.BTree.constructor` | external/include/stx/btree.h:1244-1247 | the empty tree is valid |
| `BTreeLookup.Descend` | external/include/stx/btree.h:1725-1741 | the descent ends at the leaf and slot of the key's bound among all pairs, past the last slot only in the tail leaf, and visits one node of each level: logarithmically few |
| `BTreeLookup.LowerBound` | external/include/stx/btree.h:1725-1742 | the position of the first pair whose key is not smaller, duplicates over several leaves included |
| `BTreeLookup.UpperBound` | external/include/stx/btree.h:1767-1784 | the position of the first pair whose key is greater |
| `BTreeLookup.Find` | external/include/stx/btree.h:1648-1665 | the first pair with the key, or the end |
| `BTreeLookup.Exists` | external/include/stx/btree.h:1627-1643 | true exactly when a pair has the key |
| `BTreeLookup.Count` | external/include/stx/btree.h:1692-1721 | the number of pairs with the key, over leaf boundaries |
| `BTreeLookup.CountRun` | external/include/stx/btree.h:1692-1721 | the pairs with a key are one run from its lower bound on |
| `BTreeLookup.Iterator.Get` | external/include/stx/btree.h:445-472 | an iterator at position p reads the p-th pair |
| `BTreeLookup.Iterator.Next` | external/include/stx/btree.h:475-491 | one position on, over leaf boundaries; the end stays the end |
| `BTreeLookup.Iterator.Prev` | external/include/stx/btree.h:513-528 | one position back, from the end too; undoes `Next` |
| `BTreeLookup.Iterator.Equals` | external/include/stx/btree.h:551-554 | iterators compare equal exactly when their positions are equal |
| `BTreeLookup.Begin` | external/include/stx/btree.h:1443-1446 | position 0 |
| `BTreeLookup.End` | external/include/stx/btree.h:1450-1453 | the position behind the last pair |
| `BTreeLookup.Walk` | external/include/stx/btree.h:475-491 | from begin to end every pair is seen once, in order |
| `BTreeLookup.ReverseIterator.Get` | external/include/stx/btree.h:848-879 | a reverse iterator with p pairs in front of it reads the p-th of them |
| `BTreeLookup.ReverseIterator.Next` | external/include/stx/btree.h:882-898 | one pair towards the front |
| `BTreeLookup.ReverseIterator.Prev` | external/include/stx/btree.h:920-935 | one pair towards the back; undoes `Next` |
| `BTreeLookup.TurnedRound` | external/include/stx/btree.h:841-844 | an iterator turned into a reverse one keeps its position if and only if its slot is not 0 or it is the very first; otherwise it stands for no position at all |
| `BTreeLookup.TurnedBack` | external/include/stx/btree.h:438-441 | a reverse iterator turned back keeps its position if and only if it is not behind the last pair of a leaf that is not the last |
| `BTreeLookup.LostPositions` | external/include/stx/btree.h:839-844 | there is a tree with an iterator and a reverse iterator at the same position, each of which stands for no position once it is turned round |
| `BTreeLookup.WalkBack` | external/include/stx/btree.h:882-898 | from rbegin to rend every pair is seen once, in reverse order |
| `BTreeLookup.LeastContents` | external/include/stx/btree.h:198-203 | a subtree of level h holds at least (i + 1)^h * l pairs, where i and l are half the slots of an inner node and of a leaf |
| `BTreeLookup.HeightBound` | external/include/stx/btree.h:198-203 | a tree of height h >= 1 holds at least 2 * (i + 1)^(h - 1) * l pairs |
| `BTreeLookup.VisitedFew` | external/include/stx/btree.h:1627-1643 | so the number of nodes that a lookup visits bounds the number of pairs exponentially from below |
| `BTreeCopy.CopyRecursive` | external/include/stx/btree.h:1905-1945 | the same tree in fresh nodes, its leaves appended to the chain in order |
| `BTreeCopy.Copy` | external/include/stx/btree.h:1888-1902 | a valid tree of the same shape and contents that shares no node with the other, which stays as it is |
| `BTreeCopy.DumpDepicts` | external/include/stx/btree.h:3324-3348 | the images in dump order determine the tree |
| `BTreeCopy.Dump` | external/include/stx/btree.h:3270-3281 | the file records the tree, under a header with the signature, version 0, the sizes of a key and of a datum, both slot counts and whether duplicates are allowed |
| `BTreeCopy.RestoreNode` | external/include/stx/btree.h:3351-3405 | nothing when the stream has ended; else, if all images of the subtree are there, exactly that subtree in fresh nodes, its leaves appended with the pointers of the image overwritten; if some are missing, a node with a last child missing below it |
| `BTreeCopy.TornHoldsNothing` | external/include/stx/btree.h:3398-3401 | nodes in which a last child is missing hold no tree |
| `BTreeCopy.Restore` | external/include/stx/btree.h:3287-3319 | for a file cut anywhere: refused, with the tree unchanged, as soon as the header is missing or its signature, version, key size, data size, leaf slots, inner slots or duplicates flag differs; otherwise true exactly when, if there are pairs, at least one node is there; then the tree is the recorded one, with a well-formed chain in fresh nodes, if nothing is cut off, and no tree at all if something is |
| `BTreeCopy.DumpedAndRestored` | external/include/stx/btree.h:3264-3320 | dump and then restore gives a valid tree of the same shape and contents, even into itself, and leaves the dumped one alone |
| `BTreeCopy.Clear` | external/include/stx/btree.h:1397-1410 | the empty tree with all counters at zero |
| `Replacing.ReplaceAllMeaning` | include/util/autobuffer.h:161-214 | replace-all cuts the text into pieces without a match, each up to the first match there is, and joins them with the replacement |
| `Replacing.LongerReplaced` | include/util/autobuffer.h:171-197 | a replacement no shorter than the match replaces all of them, and the bound never wraps |
| `Replacing.ReplacedAtGaps` | include/util/autobuffer.h:181-203 | the outcome of the loop is the text replaced at exactly the places the gaps name |
| `Replacing.SameMatches` | include/util/autobuffer.h:197-200 | with a shorter replacement these are the places of replace-all if and only if between any two of its matches there is at least the difference of the two lengths |
| `Replacing.SpacedReplaced` | include/util/autobuffer.h:197-200 | and then the contents are those of replace-all; this goes one way only |
| `Replacing.OtherMatches` | include/util/autobuffer.h:197-200 | `aaaaa` with `aa` replaced by `a` is `aaa` either way, without a wrap, at other places |
| `Replacing.SameCount` | include/util/autobuffer.h:197-200 | the contents are those of replace-all only if as many matches are replaced |
| `Replacing.ShorterMisses` | include/util/autobuffer.h:197-200 | `abab` with `ab` taken out is `ab` |
| `Replacing.ReplacedLength` | include/util/autobuffer.h:189-200 | the length changes by the difference of match and replacement, once for each match replaced |
| `Replacing.WrapsByCount` | include/util/autobuffer.h:168-199 | the unsigned bound of the loop wraps if and only if the matches replaced, times that difference, leave less than a match of the length |
| `Replacing.WrapsAlone` | include/util/autobuffer.h:168-199 | `ab` with `ab` taken out is such a case |
| `Replacing.ReplaceFirstMeaning` | include/util/autobuffer.h:181-207 | replacing once changes the first match and nothing else |
| `AutoBuffers.AutoBuffer.CheckSize` | include/util/autobuffer.h:128-146 | the contents survive; the buffer stays when it has room for the demand, else it grows to the next granule |
| `AutoBuffers.AutoBuffer.Append` | include/util/autobuffer.h:117-126 | the contents with the data behind them, within the buffer |
| `AutoBuffers.AutoBuffer.DecrementFreeSize` | include/util/autobuffer.h:101-107 | the fill grows, at most to the whole buffer |
| `AutoBuffers.AutoBuffer.IncrementFreeSize` | include/util/autobuffer.h:109-115 | the last elements go, at most all |
| `AutoBuffers.AutoBuffer.CutFromHead` | include/util/autobuffer.h:148-159 | the first elements go; nothing happens when there are not that many |
| `AutoBuffers.AutoBuffer.Replace` | include/util/autobuffer.h:161-214 | unless the bound wraps, the contents become exactly what the loop makes of them, shorter or longer, through reallocation, and the result tells whether there was a match |
| `Framing.StreamCut` | include/net/compactbinary.h:162-198 | processing a stream is processing a first part and then what it left over with the rest |
| `Framing.FirstPacket` | include/net/compactbinary.h:162-198 | a frame of sign, size, type and payload leads to a call with exactly that payload if its type has a handler, and then whatever follows is handled; one pass ends there if it has none |
| `Framing.NoPacket` | include/net/compactbinary.h:162-198 | without the sign, or without all the bytes it announces, nothing is handled and everything is left |
| `Framing.SegmentationIndependent` | src/net/connection.cpp:61-107 | for any bytes and any cuts, malformed ones included, the handler calls and the leftover are those of the whole at once |
| `Framing.UnknownMakeNoDifference` | include/net/compactbinary.h:175-185 | any number of complete packets of types without a handler, taken out anywhere between the packets of a stream, change neither the calls nor the leftover |
| `Framing.UnknownBlockNothing` | src/net/connection.cpp:61-107 | and they do not whatever segments either stream arrives in |
| `Framing.DispatchedPart` | include/net/compactbinary.h:162-198 | one pass of the dispatcher is a prefix of the whole processing, packets without a handler included, and makes progress whenever a packet is complete |
| `Receiving.Dispatcher.RegisterProcessCommand` | include/net/compactbinary.h:158-160 | the handler of one type is replaced |
| `Receiving.Dispatcher.DoProcess` | include/net/compactbinary.h:162-198 | the loop makes exactly the calls, and reports exactly the bytes, of one pass |
| `Receiving.Connection.CompileBufferData` | src/net/connection.cpp:61-71 | all complete packets are handled in order, what is left is kept at the head of the buffer |
| `Receiving.Connection.Read` | src/net/connection.cpp:93-107 | one segment more: calls, leftover and byte counter |
| `Receiving.Connection.Feed` | src/net/connection.cpp:93-107 | a whole run of segments is the concatenation at once |
| `Chunks.ChunkIn.ParsePacket` | src/net/compactbinary.cpp:17-120 | the consuming loop makes exactly the calls that the bytes mean, on every input |
| `Chunks.ParseField` | src/net/compactbinary.cpp:17-120 | a chunk of any type in front of any tail leads to exactly its own callback, and then those of the tail: a binary one to its bytes, numbers in network order to their value, a long one to its two halves, whatever size they announce |
| `Chunks.NumberMissing` | src/net/compactbinary.cpp:44-68 | a number whose bytes are not all there leads to no callback, and what there is of them is taken for chunks |
| `Chunks.ParseUndoes` | src/net/compactbinary.cpp:17-131 | every list of string, binary, byte, short, integer, long and foreign chunks is read back as written |
| `Chunks.ParseEnds` | src/net/compactbinary.cpp:25-42 | behind such a list, the parser ends in front of what is no whole chunk, and has made just the callbacks of the list |
| `Chunks.ForeignChangesNothing` | src/net/compactbinary.cpp:113-117 | chunks of unrecognised type can be taken out without a difference |
| `Chunks.ShortTurnedRound` | include/net/compactbinary.h:93-106 | a short chunk as written by the template is read back as itself if and only if its two bytes are equal |
| `Chunks.IntegerTurnedRound` | include/net/compactbinary.h:93-107 | an integer chunk if and only if its four bytes read the same from both ends |
| `Chunks.ChunkOut.AppendChunkString` | src/net/compactbinary.cpp:122-131 | header and text are appended; the size field wraps at 16 bits |
| `Chunks.ChunkOut.AppendChunkT` | include/net/compactbinary.h:93-103 | header and the bytes of a number as the host keeps it are appended |
| `Chunks.ChunkOut.AppendChunkShort` | include/net/compactbinary.h:106 | the two bytes of a little-endian host |
| `Chunks.ChunkOut.AppendChunkInteger` | include/net/compactbinary.h:107 | the four bytes of a little-endian host |
| `Chunks.ChunkOut.AppendChunkByte` | include/net/compactbinary.h:93-105 | header and byte are appended |
| `Chunks.Sender.SendChunkInPacket` | include/net/compactbinary.h:202-212 | the bytes of one packet are sent, its payload cut by the 16-bit size |
| `Chunks.PacketComesThrough` | include/net/compactbinary.h:162-212 | a sent packet is recognised whole in front of any other bytes, and its payload is the sent one if and only if it is shorter than 65536 bytes |
| `Chunks.EndToEnd` | include/net/compactbinary.h:162-212 | any sequence of messages, delivered in any segments, gives exactly one call for each message with a handler, in order, and nothing left over |
| `Chunks.DeliveredValues` | src/net/compactbinary.cpp:17-131 | and parsing what the handlers get gives the written fields |
| `Delivery.SendAll` | include/net/compactbinary.h:93-212 | messages written with the append operations and sent are the bytes of their packets |
| `Delivery.Deliver` | src/net/connection.cpp:61-107 | the whole run in memory: messages written, sent and received in any pieces make the parsers of their handlers see the fields as written, in order, and leave no byte over |
| `HttpText.ParseString` | src/net/http.cpp:369-398 | the scan in place marks the text and appends the offsets exactly as the recursive reading says, for any text that ends in NUL |
| `HttpText.ScanPrinted` | src/net/http.cpp:369-398 | the marked text and all offsets of a printed list |
| `HttpText.ScanPieces` | src/net/http.cpp:369-398 | for any text, the pairs are its pieces between dividers, in order, up to its first string end: the key where the piece starts, the value behind its last equals sign; dividers and equals signs there become string ends, and nothing else changes |
| `HttpText.ParseUndoesPrint` | src/net/http.cpp:369-398 | for every non-empty list of keys with optional values, the offsets read from the marked text as the same pairs in order, leading spaces dropped when trimming |
| `HttpText.LookupReads` | src/net/http.cpp:408-461 | looking up such offsets finds the first entry whose key is equal but for the case of the 26 letters |
| `HttpText.FoldedExactly` | src/net/http.cpp:408-471 | `strcasecmp` finds no difference if and only if the lengths agree and at each place there is the same character or the same of the 26 letters |
| `HttpText.FirstFound` | src/net/http.cpp:408-461 | the value of the first entry with the key, or the default if there is none or it has no value |
| `HttpText.GetValue` | src/net/http.cpp:454-461 | the loop returns that lookup |
| `HttpMessages.LineTaken` | src/net/http.cpp:198-235 | a printed header field is taken whole, with its end of line, and added |
| `HttpMessages.LooseLineTaken` | src/net/http.cpp:198-235 | so is one with any number of spaces in front of its name and of its value, and with any end of line |
| `HttpMessages.LooseAdded` | src/net/http.cpp:209-230 | added, it reads as its name and value without these spaces; only the first `Content-Length` counts |
| `HttpMessages.AtoiReads` | src/net/http.cpp:224-226 | `atoi` reads n <= 0x7FFFFFFF from its decimal printing behind any blanks, sign and zeros and in front of anything but a digit; a minus gives -n; without a number it is 0 |
| `HttpMessages.LengthRead` | src/net/http.cpp:224-226 | if the first `Content-Length` is n printed in decimals, that is the length; without one there is none |
| `HttpMessages.LeftBelowZero` | src/net/http.cpp:171-175 | the size of the rest falls below zero if and only if the text ends right behind the path and the byte behind it is a question mark |
| `HttpMessages.StopsShort` | src/net/http.cpp:171-175 | `GET / ` is a text for which it does |
| `HttpMessages.PrintedGoesOn` | src/net/http.cpp:149-181 | no printed request ends behind its path |
| `HttpMessages.HeadUndoesPrint` | src/net/http.cpp:146-237 | request line and header of every printed request are understood, and all their offsets read back |
| `HttpMessages.HeadStays` | src/net/http.cpp:146-237 | a header that is there stays as it is whatever follows, and that is left behind it |
| `HttpMessages.PartIncomplete` | src/net/http.cpp:146-237 | no proper part of a printed header is taken for a header |
| `HttpStages.HeadCut` | src/net/http.cpp:146-237 | whatever the text and wherever it is cut: reading the second part behind what was left of the first comes to the same as reading it at once, except that one end-of-line character is missed where a line ended just with the first part |
| `HttpStages.HeadAlike` | src/net/http.cpp:146-237 | what the buffers hold besides the strings noted makes no difference to what comes next |
| `HttpStages.CutMatters` | src/net/http.cpp:146-237 | a printed request cut in two has its field names read as printed if and only if it is not cut within the end of its request line or of a field |
| `HttpStages.CutWithinEnd` | src/net/http.cpp:182-196 | behind `GET / H` and CR there is such a cut |
| `HttpCookies.CookiesUndoPrint` | src/net/http.cpp:227-230 | whenever the `Cookie` fields of a printed request are printed lists, the offsets noted for them read, after all of the header, as the entries of all these lists in order |
| `HttpParsing.FindSubValue` | src/net/http.cpp:39-102 | the search outside of quotes, as a test |
| `HttpParsing.FindSubExactly` | src/net/http.cpp:39-102 | the text is found if and only if it stands somewhere with an even number of quotes in front of it |
| `HttpParsing.FormExactly` | src/net/http.cpp:251-256 | the body is a form if and only if the first `Content-Type`, in whatever case, says `application/x-www-form-urlencoded` outside of quotes |
| `HttpParsing.GetChunk` | src/net/http.cpp:117-144 | a chunk is found exactly when a stop character follows; it is appended with a NUL in its place, and the reference skips the prefix |
| `HttpParsing.RequestParser.constructor` | include/net/http.h:199-204 | a new parser is cleared |
| `HttpParsing.RequestParser.Clear` | include/net/http.h:206-226 | the parser is as new again |
| `HttpParsing.RequestParser.ReadTarget` | src/net/http.cpp:149-170 | method and path, and whether they are complete, for a parser in any state: what has been read before is kept and not read again; as much is known and left as the text leads to from there |
| `HttpParsing.RequestParser.ReadQuery` | src/net/http.cpp:171-181 | the optional query goes to the parameters; the byte behind the buffer is looked at only when nothing is left of it |
| `HttpParsing.RequestParser.ClearedLooks` | src/net/http.cpp:149-172 | a cleared parser looks behind the buffer exactly on the texts that end behind the path |
| `HttpParsing.RequestParser.ReadVersion` | src/net/http.cpp:182-196 | the version, and the second character of the line end |
| `HttpParsing.RequestParser.NoteField` | src/net/http.cpp:223-230 | the pair is noted; the first `Content-Length` sets the size, a `Cookie` is split in place |
| `HttpParsing.RequestParser.ReadField` | src/net/http.cpp:209-234 | one header field, or that it is incomplete and what is left then |
| `HttpParsing.RequestParser.ProcessFields` | src/net/http.cpp:197-236 | the header up to the empty line or as far as there are whole fields, from any point within it |
| `HttpParsing.RequestParser.ReadHead` | src/net/http.cpp:146-237 | from any state within the header, exactly as much is read as the text leads to from there |
| `HttpParsing.RequestParser.ProcessBody` | src/net/http.cpp:239-279 | for a parser in any state: how much of the body is taken, when it is complete, and the parameters after it |
| `HttpParsing.HeaderFound` | src/net/http.cpp:463-471 | the lookup among stored header fields finds the first printed field with that name but for case |
| `HttpParsing.RequestFinished` | src/net/http.cpp:239-279 | a body as long as `Content-Length` says is complete; it leaves the parameters alone, or, being a form, is put behind the query |
| `HttpParsing.FormPrinted` | src/net/http.cpp:251-273 | when query and form are printed lists, their join is the printed list of the entries of both |
| `HttpParsing.RequestParser.ProcessData` | src/net/http.cpp:146-282 | from any state within the header or the body it does exactly what the text leads to from there, and nothing once it is ready, unless it looks at the byte behind the buffer and that is a question mark. On a cleared parser: given any printed header with anything behind it whose first `Content-Length` is n in decimals, it takes just n bytes of what follows, is ready unless some are missing (or n is 0 and something follows), and its offsets read back as the method, path, version, fields, body, parameters and cookies; without a length it takes the header alone; given a part of a printed header it is not ready |
| `HttpParsing.OfferHead` | src/net/http.cpp:146-282 | a text offered in any pieces, none of which begins within a line end, leaves the parser with a header that reads the same as that of the text at once, and the same text left over |
| `HttpParsing.RequestParser.AlikeReads` | src/net/http.cpp:146-282 | and what reads the same as a printed header reads back as that request, cookies and parameters included |
| `HttpParsing.OfferPieces` | src/net/http.cpp:239-279 | a body offered in pieces: each is taken whole up to the one that completes it, and of that one as much as was announced for all of it |
| `HttpParsing.BodyAsAnnounced` | src/net/http.cpp:239-279 | so the body is the announced part of the pieces if and only if the piece that completes it is the first one or brings no more than is missing |
| `HttpParsing.TooMuchTaken` | src/net/http.cpp:239-279 | `ab` and `cdGE` with four bytes announced become `abcdGE` |
| `HttpParsing.RequestParser.QueryReads` | src/net/http.cpp:454-461 | after a printed request whose query, with the form behind it if there is one, is a printed list, the stored offsets read as its keys and values in order, and looking up a key finds the first entry with it but for case |
| `HttpParsing.RequestParser.CookieReads` | src/net/http.cpp:408-415 | after a printed request whose cookies are printed lists, looking up a cookie finds the first entry with its name but for case |
| `Utf8.EncodeText` | include/unicode/transform.h:7-46 | the loop over shifts writes the recursive encoding |
| `Utf8.EncodedShortest` | include/unicode/transform.h:7-46 | every element is written in the shortest of the six forms that holds it: the lead byte has the marker of its length, the others are 10xxxxxx, and the bits they carry, read as one number, are the element; a negative one is written as its 32 bits |
| `Utf8.DecodeText` | include/unicode/transform.h:48-85 | the loop with its jump back reads the recursive decoding, on any bytes |
| `Utf8.SingleByte` | include/unicode/transform.h:48-85 | a byte below 0x80 is itself; a byte that can begin nothing is a question mark |
| `Utf8.WholeSequence` | include/unicode/transform.h:48-85 | a lead byte with as many continuation bytes as it announces is the number they carry, or a question mark when the lead byte carries no bit of it |
| `Utf8.BrokenSequence` | include/unicode/transform.h:48-85 | a sequence broken off comes out as the bits there are, and the byte that broke it off is read anew; at the end of the text nothing comes out |
| `Utf8.DecodeBounded` | include/unicode/transform.h:48-85 | at most one element per byte |
| `Utf8.DecodeUndoesEncode` | include/unicode/transform.h:7-85 | for every sequence, what comes back element by element: itself, one question mark, or six for a negative one |
| `Utf8.RoundTrip` | include/unicode/transform.h:7-85 | the sequence comes back unchanged if and only if every lead byte carries a payload bit |
| `Base64.MapsAgree` | external/include/jwt/base64.hpp:57-180 | a digit comes back through the two maps |
| `Base64.MapsAgreeBack` | external/include/jwt/base64.hpp:57-180 | and so does every character that is not refused |
| `Base64.EMapExactly` | external/include/jwt/base64.hpp:57-75 | the digits are written by the alphabet of section 4 of RFC 4648 |
| `Base64.DMapExactly` | external/include/jwt/base64.hpp:142-180 | and read by it; exactly the characters outside of it are refused |
| `Base64.EncodedSize` | external/include/jwt/base64.hpp:35-41 | the text has exactly the announced length |
| `Base64.EncodingFits` | external/include/jwt/base64.hpp:89-136 | the text can be counted in an `int` if and only if there are at most 1610612733 bytes, and then it can be decoded |
| `Base64.EncodeBytes` | external/include/jwt/base64.hpp:89-139 | the loop writes the recursive encoding, within the announced size, as long as an `int` can count it |
| `Base64.EncodedGroup` | external/include/jwt/base64.hpp:89-139 | each four characters are the six-bit digits, in the alphabet, of the bits of their three bytes or fewer, filled up with equals signs |
| `Base64.DecodeText` | external/include/jwt/base64.hpp:191-254 | the loop reads the recursive decoding of every text whose result has room, stopping at a bad first character, as long as what it looks up is in the map and an `int` can count the result |
| `Base64.DecodeExactly` | external/include/jwt/base64.hpp:191-254 | for any text: characters outside the alphabet at its end are dropped; then the bytes of its groups up to the first that does not begin with a digit, from where on there are zeros |
| `Base64.GroupOrs` | external/include/jwt/base64.hpp:205-253 | the bytes of a group are the bits of its digits put together with `or`, refused characters counted as all ones |
| `Base64.RoomExactly` | external/include/jwt/base64.hpp:47-254 | the result has room if and only if the decoding stops early, or no cut group is written, or what follows the digits makes one group more |
| `Base64.DecodingWitnesses` | external/include/jwt/base64.hpp:191-254 | `QQ` has no room for its one byte; `*AAAAA` gives three zero bytes at once |
| `Base64.EncodedDecodable` | external/include/jwt/base64.hpp:89-330 | whatever was encoded, in either alphabet, can be decoded |
| `Base64.DecodeUndoesEncode` | external/include/jwt/base64.hpp:89-254 | every byte string comes back, and decoding its text stays within the result |
| `Base64.UrlEncode` | external/include/jwt/base64.hpp:268-289 | the rewriting in place never overtakes its reads |
| `Base64.UrlExactly` | external/include/jwt/base64.hpp:268-289 | the same digits in the alphabet of section 5 of RFC 4648 |
| `Base64.UrlDecode` | external/include/jwt/base64.hpp:301-330 | the padded and plain text is decoded, within the result |
| `Base64.UrlDecodable` | external/include/jwt/base64.hpp:301-330 | every plain text that an `int` can count can be decoded this way |
| `Base64.UrlRoundTrip` | external/include/jwt/base64.hpp:268-330 | every byte string comes back through the URL-safe pair, and its text has ceil(4n/3) characters |

## Left out

B+ tree:

- Keys are integers: any finite total order embeds in them, and keys are compared only with `key_less`.
- `unsigned short` slot counts and levels, failing allocations, and what happens to a freed node beyond the counters.
- Node slots are sequences of fixed length inside one `Node` class told apart by `level`, as the casts do; the slot arrays are part of the structs, so no two nodes can share them.
- `erase_one_descend` and `insert_descend` are split into several methods. A child's changes to its parent (separator, shift, merge) are done by the method of the parent, in the same order.
- The branch of `shift_left_leaf` that reports a changed last key is not modelled: both leaves are children of that parent, so the left one is never its last.
- BTreeCopy.Restore: does not model forged images, because nothing is promised for a file that no `dump` wrote; one that is cut off anywhere is modelled, an image cut in its middle being one that cannot be read.
- `btree_map.h`, `btree_multimap.h`, debug printing, comparison of whole trees, constructors from ranges: delegation.

Protocol:

- Chunks.ChunkIn.ParsePacket: does not model the nodes of an array chunk, because the default `SetArray` returns no object and the array is passed over; nothing in the repository writes one.
- `AppendChunkBuffer` is left out; it writes the capacity where the length is announced. There is no writer of binary and long chunks; their bytes are printed by `Encoded`.
- Handlers are recorded, not run; `bufferevent` and connection lifetime are outside.

HTTP:

- HttpParsing.RequestParser.ProcessData: for a parser in a state that no cleared one comes to, only that it stays well-formed is stated.
- HttpParsing.RequestParser.ReadHead: does not say what bytes of an incomplete field stay in the header buffer, because no offset points there.
- HttpParsing.RequestParser.ReadQuery: does not model what follows when the byte behind the buffer is looked at and is a question mark, because the size of the rest has fallen below zero then.
- HttpParsing.RequestParser.constructor: does not model host, port and the response, because nothing here reads them.
- HttpParsing.RequestParser.Clear: does not model host, port and the response, because nothing here reads them.
- HttpParsing.FindSubValue: does not model the extraction of the value, because only multipart bodies use it.
- `atoi` of a number that no `int` can hold is an unspecified `int`. Multipart bodies, responses and files are left out.
- The value of a `Cookie` field is claimed to read back as its entries, not as one text, since it is split in place.

Codecs and buffer:

- AutoBuffers.AutoBuffer.Replace: does not model what happens once the bound has wrapped, where the loop reads behind the buffer, nor several replacements of an empty match, where it does not end; reallocation always succeeds.
- Base64.DecodeText: does not model a lookup of a character from 128 on, which fails the assertion in the map, nor writing behind a result that has no room.
- Base64.EncodeBytes: does not model more than 1610612733 bytes, where the `int` index overflows; the same bound on the index limits `DecodeText` and `UrlDecode`.
- UTF-8 is for a signed four-byte `wchar_t`; the branches for two bytes are left out.
