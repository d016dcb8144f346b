/** Lookups, which descend to a leaf, and positions in the leaf chain. */
module BTreeLookup {
  import opened BTreeNode
  import opened BTreeItems
  import opened BTreeTree
  import opened BTreeBalance
  import opened BTreeErase
  import opened BTreeInsert
  import opened BTreeShape
  import opened BTreeMemory
  import opened BTreeRepair
  import opened BTreeChain
  import opened BTreeLeaves
  import opened BTreeClass

  // The leaves of a valid tree

  /** No leaf of a valid tree is empty or overfull. */
  lemma {:induction false} LeavesFilled(t: Tree, few: nat)
    requires Valid(t, few) && few > 0
    ensures Leaves(t) != []
    ensures forall l | l in Leaves(t) :: l.Leaf? && l.items != [] && |l.items| <= LEAF_SLOT_MAX
    decreases t, 0
  {
    if t.Inner? { LeavesAllFilled(t.level, t.kids); }
  }

  lemma {:induction false} LeavesAllFilled(level: nat, kids: seq<Tree>)
    requires forall i | 0 <= i < |kids| :: Valid(kids[i], kids[i].MinSlots())
    ensures kids != [] ==> LeavesAll(kids) != []
    ensures forall l | l in LeavesAll(kids) :: l.Leaf? && l.items != [] && |l.items| <= LEAF_SLOT_MAX
    decreases kids, 1
  {
    if kids != [] {
      LeavesFilled(kids[0], kids[0].MinSlots());
      LeavesAllFilled(level, kids[1..]);
    }
  }

  /** Memory holds every leaf. */
  lemma {:induction false} LeavesHeld(t: Tree)
    requires Holds(t)
    ensures forall l | l in Leaves(t) :: l.Leaf? && LeafHolds(l.ref, l.items)
    decreases t, 0
  {
    if t.Inner? { LeavesAllHeld(t.kids); }
  }

  lemma {:induction false} LeavesAllHeld(kids: seq<Tree>)
    requires AllHold(kids)
    ensures forall l | l in LeavesAll(kids) :: l.Leaf? && LeafHolds(l.ref, l.items)
    decreases kids, 1
  {
    if kids != [] {
      LeavesHeld(kids[0]);
      LeavesAllHeld(kids[1..]);
    }
  }

  // The descent

  function Bound(keys: seq<Key>, key: Key, upper: bool): nat {
    if upper then FindUpper(keys, key) else FindLower(keys, key)
  }

  /** Keys in front of the position looked for. */
  predicate InFront(k: Key, key: Key, upper: bool) {
    if upper then k <= key else k < key
  }

  lemma BoundUnique(keys: seq<Key>, key: Key, upper: bool, p: nat)
    requires p <= |keys| && (forall i | 0 <= i < p :: InFront(keys[i], key, upper))
    requires forall i | p <= i < |keys| :: !InFront(keys[i], key, upper)
    ensures p == Bound(keys, key, upper)
  {
    if upper { UpperUnique(keys, key, p); } else { LowerUnique(keys, key, p); }
  }

  /** A subtree on the way down, and the leaves before and behind it. */
  ghost predicate OnPath(pre: seq<Tree>, t: Tree, post: seq<Tree>, key: Key, upper: bool) {
    && Contents(t) != []
    && (forall x | x in Flat(pre) :: InFront(x.key, key, upper))
    && (post != [] ==> !InFront(HighKey(t), key, upper))
  }

  lemma {:induction false} PathStep(pre: seq<Tree>, t: Tree, post: seq<Tree>, few: nat, key: Key, upper: bool, s: nat)
    requires t.Inner? && Valid(t, few) && few > 0 && OnPath(pre, t, post, key, upper) && s == Bound(t.keys, key, upper)
    ensures s < |t.kids| && OnPath(pre + LeavesAll(t.kids[..s]), t.kids[s], LeavesAll(t.kids[s + 1..]) + post, key, upper)
  {
    Bounds(t, few);
    var a := LeavesAll(t.kids[..s]);
    FlatConcat(pre, a);
    LeavesAllContents(t.kids[..s]);
    if s > 0 { LowPart(t, few, key, upper, s); }
    InnerHigh(t);
    if s == |t.keys| { assert t.kids[s + 1..] == []; }
  }

  lemma {:induction false} LowPart(t: Tree, few: nat, key: Key, upper: bool, s: nat)
    requires t.Inner? && Valid(t, few) && 0 < s <= |t.keys| && InFront(t.keys[s - 1], key, upper)
    ensures forall x | x in Flat(t.kids[..s]) :: InFront(x.key, key, upper)
  {
    ContentsSorted(t, few);
    CutSeparated(t.keys, t.kids, s - 1);
    var a := Flat(t.kids[..s]);
    SortedConcat(a, Flat(t.kids[s..]));
    forall x | x in a ensures InFront(x.key, key, upper) {
      var i :| 0 <= i < |a| && a[i] == x;
      assert a[i].key <= a[|a| - 1].key;
    }
  }

  /** A bound within the middle part is the bound of the whole. */
  lemma {:induction false} BoundInMiddle(a: seq<Item>, m: seq<Item>, b: seq<Item>, key: Key, upper: bool)
    requires SortedItems(a + m + b) && m != []
    requires forall x | x in a :: InFront(x.key, key, upper)
    requires b != [] ==> !InFront(LastKey(m), key, upper)
    ensures Bound(KeysOf(a + m + b), key, upper) == |a| + Bound(KeysOf(m), key, upper)
    ensures Bound(KeysOf(m), key, upper) == |m| ==> b == []
  {
    var s, slot := a + m + b, Bound(KeysOf(m), key, upper);
    var keys, p := KeysOf(s), |a| + slot;
    BoundSplits(KeysOf(m), key, upper);
    assert forall i | 0 <= i < |m| :: KeysOf(m)[i] == m[i].key && s[|a| + i] == m[i];
    if slot == |m| { assert InFront(KeysOf(m)[|m| - 1], key, upper); }
    forall i | 0 <= i < p ensures InFront(keys[i], key, upper) {
      if i < |a| { assert s[i] == a[i] && a[i] in a; } else { assert s[i] == m[i - |a|]; }
    }
    forall i | p <= i < |keys| ensures !InFront(keys[i], key, upper) {
      assert s[p] == m[slot] && s[p].key <= s[i].key;
    }
    BoundUnique(keys, key, upper, p);
  }

  lemma BoundSplits(keys: seq<Key>, key: Key, upper: bool)
    ensures Bound(keys, key, upper) <= |keys|
    ensures forall i | 0 <= i < Bound(keys, key, upper) :: InFront(keys[i], key, upper)
    ensures Bound(keys, key, upper) < |keys| ==> !InFront(keys[Bound(keys, key, upper)], key, upper)
  {
  }

  /** At the leaf, the slot found gives the position in the whole tree. */
  lemma {:induction false} PathEnd(pre: seq<Tree>, leaf: Tree, post: seq<Tree>, key: Key, upper: bool)
    requires leaf.Leaf? && OnPath(pre, leaf, post, key, upper)
    requires forall l | l in post :: l.Leaf? && l.items != []
    requires SortedItems(Flat(pre + [leaf] + post))
    ensures IsAt(pre + [leaf] + post, |pre|, Bound(KeysOf(leaf.items), key, upper),
                 Bound(KeysOf(Flat(pre + [leaf] + post)), key, upper))
  {
    hide Bound, InFront;
    var leaves := pre + [leaf] + post;
    FlatConcat(pre + [leaf], post);
    FlatConcat(pre, [leaf]);
    FlatOne(leaf);
    assert leaves[..|pre|] == pre && leaves[|pre|] == leaf;
    BoundSplits(KeysOf(leaf.items), key, upper);
    BoundInMiddle(Flat(pre), leaf.items, Flat(post), key, upper);
    if post != [] { assert post[0] in post; }
  }

  method BoundSlot(n: Node, key: Key, upper: bool, ghost keys: seq<Key>) returns (slot: nat)
    requires n.slotuse == |keys| <= |n.slotkey| && n.slotkey[..|keys|] == keys && SortedKeys(keys)
    ensures slot == Bound(keys, key, upper)
  {
    if upper { slot := FindUpperSlot(n, key, keys); } else { slot := FindLowerSlot(n, key, keys); }
  }

  /** The slot in one node on the way, from memory. */
  method SlotOf(n: Node, key: Key, upper: bool, ghost t: Tree, ghost few: nat) returns (slot: nat)
    requires Holds(t) && Valid(t, few) && n == t.ref
    ensures slot == Bound(if t.Leaf? then KeysOf(t.items) else t.keys, key, upper)
    ensures t.Inner? ==> slot < |t.kids| && slot < |n.childid| && n.childid[slot] == t.kids[slot].ref
  {
    hide AllHold, Separated, KidsValid;
    Bounds(t, few);
    if t.Inner? {
      KidsSorted(t.level, t.kids, -1);
      SeparatorsSorted(t.keys, t.kids);
      SlotsAt(n.childid, RefsOf(t.kids));
    }
    slot := BoundSlot(n, key, upper, if t.Leaf? then KeysOf(t.items) else t.keys);
  }

  /** What a lookup may rely on. */
  lemma {:induction false} TreeFacts(tree: BTree)
    requires tree.Valid() && tree.root != null
    ensures tree.shape.Some?
    ensures var t := tree.shape.value;
      && tree.root == t.ref && Holds(t) && Valid(t, 1)
      && tree.Items() == Contents(t) && SortedItems(Contents(t)) && Contents(t) != []
      && tree.Linked(LeafRefs(t)) && tree.itemcount == |tree.Items()|
  {
    ContentsSorted(tree.shape.value, 1);
  }

  /** The descent of every lookup, to the leaf and slot of the position looked for. */
  method Descend(tree: BTree, key: Key, upper: bool) returns (leaf: Node, slot: nat, ghost i: nat, ghost visited: nat)
    requires tree.Valid() && tree.root != null
    ensures tree.shape.Some? && visited == tree.shape.value.Level() + 1 && |tree.Items()| >= LeastItems(visited)
    ensures i < |AllLeaves(tree)| && leaf == AllLeaves(tree)[i].ref
    ensures IsAt(AllLeaves(tree), i, slot, Bound(KeysOf(tree.Items()), key, upper))
    ensures Positioned(tree, leaf, slot, Bound(KeysOf(tree.Items()), key, upper))
  {
    hide Holds, Valid, Contents, Leaves, LeavesAll, Flat, LeafRefs, SortedItems, OnPath, Bound, Positioned;
    TreeFacts(tree);
    ghost var whole := tree.shape.value;
    ghost var t, few, pre, post := whole, 1, [], [];
    visited := 1;
    var n := tree.root;
    PathStart(whole, key, upper);
    LeafOrInner(t);
    LeavesFilled(whole, 1);
    while n.level != 0
      invariant n == t.ref && Holds(t) && Valid(t, few) && few > 0 && (n.level == 0 <==> t.Leaf?)
      invariant OnPath(pre, t, post, key, upper)
      invariant Leaves(whole) == pre + Leaves(t) + post
      invariant visited + t.Level() == whole.Level() + 1
      decreases t
    {
      Existing(t);
      var s := SlotOf(n, key, upper, t, few);
      PathStep(pre, t, post, few, key, upper, s);
      KidBelow(t, few, s);
      LeavesSplit(pre, t, post, s);
      pre, post := pre + LeavesAll(t.kids[..s]), LeavesAll(t.kids[s + 1..]) + post;
      t, few := t.kids[s], t.kids[s].MinSlots();
      n := n.childid[s];
      visited := visited + 1;
    }
    Bounds(t, few);
    VisitedFew(whole, visited);
    Existing(t);
    slot := SlotOf(n, key, upper, t, few);
    leaf, i := n, |pre|;
    LeavesOne(t);
    LeavesContents(whole);
    assert forall l | l in post :: l in Leaves(whole);
    PathEnd(pre, t, post, key, upper);
    PositionedAt(tree, i, leaf, slot, Bound(KeysOf(tree.Items()), key, upper));
  }

  lemma PathStart(t: Tree, key: Key, upper: bool)
    requires Contents(t) != []
    ensures OnPath([], t, [], key, upper) && Leaves(t) == [] + Leaves(t) + []
  {
  }

  lemma {:induction false} KidBelow(t: Tree, few: nat, s: nat)
    requires t.Inner? && Holds(t) && Valid(t, few) && s < |t.kids|
    ensures Holds(t.kids[s]) && Valid(t.kids[s], t.kids[s].MinSlots()) && t.kids[s].MinSlots() > 0
    ensures t.kids[s].ref.level == 0 <==> t.kids[s].Leaf?
    ensures t.kids[s] < t && t.kids[s].Level() + 1 == t.Level()
  {
    hide Separated, Holds;
    Bounds(t, few);
    KidAt(t, few, s);
    KidLevel(t, s);
  }

  lemma {:induction false} LeavesSplit(pre: seq<Tree>, t: Tree, post: seq<Tree>, s: nat)
    requires t.Inner? && s < |t.kids|
    ensures pre + Leaves(t) + post ==
            (pre + LeavesAll(t.kids[..s])) + Leaves(t.kids[s]) + (LeavesAll(t.kids[s + 1..]) + post)
  {
    hide LeavesAll;
    LeavesAround(t.kids, s);
    LeavesInner(t);
  }

  // Positions in the chain

  /** Everything about a position at once: what is stored there, and its neighbours. */
  lemma {:induction false} AtFacts(leaves: seq<Tree>, i: nat, slot: nat, p: nat)
    requires IsAt(leaves, i, slot, p) && forall l | l in leaves :: l.Leaf? && l.items != []
    ensures p <= |Flat(leaves)| && (p < |Flat(leaves)| <==> slot < |leaves[i].items|)
    ensures p < |Flat(leaves)| ==> Flat(leaves)[p] == leaves[i].items[slot]
    ensures slot + 1 < |leaves[i].items| ==> IsAt(leaves, i, slot + 1, p + 1)
    ensures slot + 1 == |leaves[i].items| && i + 1 < |leaves| ==> IsAt(leaves, i + 1, 0, p + 1)
    ensures slot + 1 == |leaves[i].items| && i + 1 == |leaves| ==> IsAt(leaves, i, slot + 1, p + 1)
    ensures slot > 0 ==> IsAt(leaves, i, slot - 1, p - 1)
    ensures slot == 0 && i > 0 ==> p > 0 && IsAt(leaves, i - 1, |leaves[i - 1].items| - 1, p - 1)
    ensures slot == 0 && i == 0 ==> p == 0
  {
    FlatAt(leaves, i);
    OffsetStep(leaves, i);
    if i + 1 < |leaves| { assert leaves[i + 1] in leaves; }
    if i + 1 == |leaves| { assert leaves[i + 1..] == []; } else { FlatSome(leaves[i + 1..]); }
    if i > 0 { OffsetStep(leaves, i - 1); assert leaves[i - 1] in leaves; }
  }

  lemma {:induction false} OffsetStep(leaves: seq<Tree>, i: nat)
    requires i < |leaves|
    ensures Flat(leaves[..i + 1]) == Flat(leaves[..i]) + Contents(leaves[i])
  {
    assert leaves[..i + 1] == leaves[..i] + [leaves[i]];
    FlatConcat(leaves[..i], [leaves[i]]);
    FlatOne(leaves[i]);
  }

  lemma FlatSome(leaves: seq<Tree>)
    requires leaves != [] && leaves[0].Leaf? && leaves[0].items != []
    ensures Flat(leaves) != []
  {
  }

  /** Two positions are the same exactly if leaf and slot are. */
  lemma {:induction false} AtUnique(leaves: seq<Tree>, i: nat, slot: nat, p: nat, j: nat, other: nat, q: nat)
    requires IsAt(leaves, i, slot, p) && IsAt(leaves, j, other, q)
    requires forall l | l in leaves :: l.Leaf? && l.items != []
    ensures p == q <==> i == j && slot == other
  {
    if i < j { OffsetMonotone(leaves, i + 1, j); OffsetStep(leaves, i); AtOrder(leaves, i, slot, j); }
    if j < i { OffsetMonotone(leaves, j + 1, i); OffsetStep(leaves, j); AtOrder(leaves, j, other, i); }
  }

  lemma AtOrder(leaves: seq<Tree>, i: nat, slot: nat, j: nat)
    requires i < j < |leaves| && leaves[i].Leaf? && slot <= |leaves[i].items|
    requires slot == |leaves[i].items| ==> i + 1 == |leaves|
    ensures slot < |leaves[i].items|
  {
  }

  lemma {:induction false} OffsetMonotone(leaves: seq<Tree>, i: nat, j: nat)
    requires i <= j <= |leaves|
    ensures |Flat(leaves[..i])| <= |Flat(leaves[..j])|
  {
    assert leaves[..j] == leaves[..i] + leaves[i..j];
    FlatConcat(leaves[..i], leaves[i..j]);
  }

  /** The leaves of the whole tree, none for the empty tree. */
  ghost function AllLeaves(tree: BTree): seq<Tree>
    reads tree`shape
  {
    LeavesOf(tree.shape)
  }

  /** What the leaves of a valid tree are. */
  lemma {:induction false} LeafFacts(tree: BTree)
    requires tree.Valid()
    ensures var leaves := AllLeaves(tree);
      && Flat(leaves) == tree.Items() && SortedItems(Flat(leaves))
      && (leaves == [] <==> tree.root == null) && |leaves| == |tree.Chain()|
      && (forall l | l in leaves :: l.Leaf? && l.items != [])
      && (forall i | 0 <= i < |leaves| :: leaves[i].ref == tree.Chain()[i] && LeafHolds(leaves[i].ref, leaves[i].items))
      && (forall i | 0 <= i < |leaves| :: leaves[i].ref.nextleaf == NextIn(tree.Chain(), i))
      && (forall i | 0 <= i < |leaves| :: leaves[i].ref.prevleaf == PrevIn(tree.Chain(), i))
      && tree.headleaf == First(tree.Chain()) && tree.tailleaf == Last(tree.Chain())
  {
    hide Holds, Valid, Contents, Leaves, Flat, LeafRefs, SortedItems, LeafHolds;
    if tree.root != null {
      TreeFacts(tree);
      var t := tree.shape.value;
      LeavesContents(t);
      LeavesFilled(t, 1);
      LeavesHeld(t);
      forall i | 0 <= i < |Leaves(t)| ensures LeafHolds(Leaves(t)[i].ref, Leaves(t)[i].items) { assert Leaves(t)[i] in Leaves(t); }
    } else {
      NothingStored();
    }
  }

  lemma NothingStored()
    ensures Flat([]) == [] && SortedItems(Flat([]))
  {
  }

  /** Node and slot stand for position `p`; the empty tree has only position 0. */
  ghost predicate Positioned(tree: BTree, node: Node?, slot: nat, p: nat)
    reads tree`shape
  {
    Located(AllLeaves(tree), node, slot, p)
  }

  /** Where the next position is found in memory. */
  lemma {:induction false} ForwardFacts(tree: BTree, node: Node?, slot: nat, p: nat)
    requires tree.Valid() && tree.root != null && Positioned(tree, node, slot, p)
    ensures node != null && p <= |tree.Items()|
    ensures slot + 1 < node.slotuse ==> p < |tree.Items()| && Positioned(tree, node, slot + 1, p + 1)
    ensures slot + 1 >= node.slotuse && node.nextleaf != null ==>
              p < |tree.Items()| && Positioned(tree, node.nextleaf, 0, p + 1)
    ensures slot + 1 >= node.slotuse && node.nextleaf == null ==>
              Positioned(tree, node, node.slotuse, if p < |tree.Items()| then p + 1 else p)
  {
    hide IsAt, BTree.Valid, Flat, AllLeaves, Positioned;
    var leaves := AllLeaves(tree);
    LeavesGood(tree);
    var i := PositionOf(tree, node, slot, p);
    AtFacts(leaves, i, slot, p);
    AtLast(leaves, i, slot, p);
    LeafAt(tree, i);
    if slot + 1 < node.slotuse {
      PositionedAt(tree, i, node, slot + 1, p + 1);
    } else if node.nextleaf != null {
      PositionedAt(tree, i + 1, node.nextleaf, 0, p + 1);
    } else if slot < node.slotuse {
      PositionedAt(tree, i, node, slot + 1, p + 1);
    }
  }

  /** The part of `LeafFacts` without memory. */
  lemma {:induction false} LeavesGood(tree: BTree)
    requires tree.Valid()
    ensures Flat(AllLeaves(tree)) == tree.Items() && (AllLeaves(tree) == [] <==> tree.root == null)
    ensures forall l | l in AllLeaves(tree) :: l.Leaf? && l.items != []
  {
    hide BTree.Valid, Flat, AllLeaves;
    LeafFacts(tree);
  }

  /** One leaf and its neighbours in memory. */
  lemma {:induction false} LeafAt(tree: BTree, i: nat)
    requires tree.Valid() && i < |AllLeaves(tree)|
    ensures var l, n := AllLeaves(tree)[i], AllLeaves(tree)[i].ref;
      && l.Leaf? && l.items != [] && n.slotuse == |l.items| <= |n.slotkey| && |l.items| <= |n.slotdata|
      && (forall k | 0 <= k < |l.items| :: Item(n.slotkey[k], n.slotdata[k]) == l.items[k])
      && n.nextleaf == (if i + 1 < |AllLeaves(tree)| then AllLeaves(tree)[i + 1].ref else null)
      && n.prevleaf == (if i > 0 then AllLeaves(tree)[i - 1].ref else null)
  {
    hide LeafHolds, BTree.Valid, SortedItems, Flat, AllLeaves;
    LeafFacts(tree);
    var l := AllLeaves(tree)[i];
    assert l in AllLeaves(tree);
    LeafSlot(l.ref, l.items);
  }

  /** Where the position before is found in memory. */
  lemma {:induction false} BackwardFacts(tree: BTree, node: Node?, slot: nat, p: nat)
    requires tree.Valid() && tree.root != null && Positioned(tree, node, slot, p)
    ensures node != null
    ensures slot > 0 ==> p > 0 && Positioned(tree, node, slot - 1, p - 1)
    ensures slot == 0 && node.prevleaf != null ==>
              p > 0 && node.prevleaf.slotuse > 0 && Positioned(tree, node.prevleaf, node.prevleaf.slotuse - 1, p - 1)
    ensures slot == 0 && node.prevleaf == null ==> p == 0
  {
    hide IsAt, BTree.Valid, Flat, AllLeaves, Positioned;
    var leaves := AllLeaves(tree);
    LeavesGood(tree);
    var i := PositionOf(tree, node, slot, p);
    AtFacts(leaves, i, slot, p);
    LeafAt(tree, i);
    if slot > 0 {
      AtPositive(leaves, i, slot, p);
      PositionedAt(tree, i, node, slot - 1, p - 1);
    } else if i > 0 {
      LeafAt(tree, i - 1);
      PositionedAt(tree, i - 1, node.prevleaf, node.prevleaf.slotuse - 1, p - 1);
    }
  }

  lemma PositionOf(tree: BTree, node: Node?, slot: nat, p: nat) returns (i: nat)
    requires Positioned(tree, node, slot, p) && AllLeaves(tree) != []
    ensures i < |AllLeaves(tree)| && IsAt(AllLeaves(tree), i, slot, p) && node == AllLeaves(tree)[i].ref
  {
    i :| 0 <= i < |AllLeaves(tree)| && IsAt(AllLeaves(tree), i, slot, p) && node == AllLeaves(tree)[i].ref;
  }

  lemma PositionedAt(tree: BTree, i: nat, node: Node?, slot: nat, p: nat)
    requires i < |AllLeaves(tree)| && IsAt(AllLeaves(tree), i, slot, p) && node == AllLeaves(tree)[i].ref
    ensures Positioned(tree, node, slot, p)
  {
  }

  lemma AtPositive(leaves: seq<Tree>, i: nat, slot: nat, p: nat)
    requires IsAt(leaves, i, slot, p)
    ensures slot <= p
  {
  }

  lemma NodesExisting(tree: BTree)
    ensures forall n | n in tree.Nodes() :: allocated(n)
  {
    if tree.shape.Some? { Existing(tree.shape.value); }
  }

  /** An iterator: a leaf and a slot, the end being the slot behind the last pair. */
  class Iterator {
    var currnode: Node?
    var currslot: nat

    constructor (l: Node?, s: nat)
      ensures currnode == l && currslot == s
    {
      currnode, currslot := l, s;
    }

    ghost predicate At(tree: BTree, p: nat)
      reads this, tree`shape
    {
      Positioned(tree, currnode, currslot, p)
    }

    /** The pair at the position. */
    method Get(ghost tree: BTree, ghost p: nat) returns (x: Item)
      requires tree.Valid() && At(tree, p) && p < |tree.Items()|
      ensures x == tree.Items()[p]
    {
      hide IsAt, BTree.Valid, Flat, AllLeaves, Positioned;
      LeavesGood(tree);
      NothingStored();
      ghost var i := PositionOf(tree, currnode, currslot, p);
      AtFacts(AllLeaves(tree), i, currslot, p);
      LeafAt(tree, i);
      x := Item(currnode.slotkey[currslot], currnode.slotdata[currslot]);
    }

    /** `++`: one position on, and no further than the end. */
    method Next(ghost tree: BTree, ghost p: nat)
      requires tree.Valid() && At(tree, p) && tree.root != null
      modifies this
      ensures At(tree, if p < |tree.Items()| then p + 1 else p)
    {
      hide Positioned, BTree.Valid;
      ForwardFacts(tree, currnode, currslot, p);
      if currslot + 1 < currnode.slotuse {
        currslot := currslot + 1;
      } else if currnode.nextleaf != null {
        currnode := currnode.nextleaf;
        currslot := 0;
      } else {
        currslot := currnode.slotuse;
      }
    }

    /** `--`: one position back, and no further than the first. */
    method Prev(ghost tree: BTree, ghost p: nat)
      requires tree.Valid() && At(tree, p) && tree.root != null
      modifies this
      ensures At(tree, if p > 0 then p - 1 else p)
    {
      hide Positioned, BTree.Valid;
      BackwardFacts(tree, currnode, currslot, p);
      if currslot > 0 {
        currslot := currslot - 1;
      } else if currnode.prevleaf != null {
        currnode := currnode.prevleaf;
        currslot := currnode.slotuse - 1;
      } else {
        currslot := 0;
      }
    }

    method Equals(other: Iterator, ghost tree: BTree, ghost p: nat, ghost q: nat) returns (same: bool)
      requires tree.Valid() && At(tree, p) && other.At(tree, q)
      ensures same <==> p == q
    {
      hide IsAt, BTree.Valid, Flat;
      same := currnode == other.currnode && currslot == other.currslot;
      ghost var leaves := AllLeaves(tree);
      LeavesGood(tree);
      if leaves != [] {
        ghost var i := PositionOf(tree, currnode, currslot, p);
        ghost var j := PositionOf(tree, other.currnode, other.currslot, q);
        AtUnique(leaves, i, currslot, p, j, other.currslot, q);
        ChainDistinct(tree, i, j);
      }
    }
  }

  lemma LeafSlot(n: Node, items: seq<Item>)
    requires LeafHolds(n, items)
    ensures n.slotuse == |items| <= |n.slotkey| && |items| <= |n.slotdata|
    ensures forall k | 0 <= k < |items| :: Item(n.slotkey[k], n.slotdata[k]) == items[k]
  {
    SlotsAt(n.slotkey, KeysOf(items));
    SlotsAt(n.slotdata, DataOf(items));
  }

  lemma AtLast(leaves: seq<Tree>, i: nat, slot: nat, p: nat)
    requires IsAt(leaves, i, slot, p)
    ensures slot <= |leaves[i].items| && (slot == |leaves[i].items| ==> i + 1 == |leaves|)
  {
  }

  lemma {:induction false} ChainDistinct(tree: BTree, i: nat, j: nat)
    requires tree.Valid() && i < |AllLeaves(tree)| && j < |AllLeaves(tree)|
    ensures AllLeaves(tree)[i].ref == AllLeaves(tree)[j].ref <==> i == j
  {
    LeavesContents(tree.shape.value);
    assert ChainOk(tree.Chain());
  }

  /** `begin()`. */
  method Begin(tree: BTree) returns (it: Iterator)
    requires tree.Valid()
    ensures fresh(it) && it.At(tree, 0)
  {
    LeafFacts(tree);
    it := new Iterator(tree.headleaf, 0);
    if AllLeaves(tree) != [] {
      assert AllLeaves(tree)[0] in AllLeaves(tree);
      assert IsAt(AllLeaves(tree), 0, 0, 0);
    }
  }

  /** `end()`. */
  method End(tree: BTree) returns (it: Iterator)
    requires tree.Valid()
    ensures fresh(it) && it.At(tree, |tree.Items()|)
  {
    hide LeafHolds;
    LeafFacts(tree);
    ghost var leaves := AllLeaves(tree);
    if tree.tailleaf == null {
      it := new Iterator(tree.tailleaf, 0);
      NothingStored();
    } else {
      ghost var i := |leaves| - 1;
      LeafSlot(leaves[i].ref, leaves[i].items);
      OffsetStep(leaves, i);
      assert leaves[..i + 1] == leaves;
      it := new Iterator(tree.tailleaf, tree.tailleaf.slotuse);
      assert IsAt(leaves, i, it.currslot, |tree.Items()|);
    }
  }

  /** A walk with `++` from `begin()` to `end()` sees every pair once, in order. */
  method Walk(tree: BTree) returns (seen: seq<Item>)
    requires tree.Valid()
    ensures seen == tree.Items()
  {
    hide Positioned, BTree.Valid, BTree.Items, Iterator.At;
    LeavesGood(tree);
    NodesExisting(tree);
    NothingStored();
    var it := Begin(tree);
    var last := End(tree);
    seen := [];
    ghost var p, items := 0, tree.Items();
    var done := it.Equals(last, tree, p, |items|);
    while !done
      invariant tree.Valid() && tree.Items() == items && fresh(it) && it != last
      invariant p <= |items| && it.At(tree, p) && last.At(tree, |items|)
      invariant done <==> p == |items|
      invariant seen == items[..p]
      decreases |items| - p
    {
      var x := it.Get(tree, p);
      seen := seen + [x];
      OneMore(items, p);
      it.Next(tree, p);
      p := p + 1;
      done := it.Equals(last, tree, p, |items|);
    }
  }

  lemma OneMore<T>(s: seq<T>, p: nat)
    requires p < |s|
    ensures s[..p + 1] == s[..p] + [s[p]]
  {
  }

  // Lookups

  /** `lower_bound` and `upper_bound`: the position, and the end when there is none. */
  method BoundPosition(tree: BTree, key: Key, upper: bool) returns (it: Iterator)
    requires tree.Valid()
    ensures fresh(it) && it.At(tree, Bound(KeysOf(tree.Items()), key, upper))
  {
    hide Flat, IsAt, Bound, AllLeaves, BTree.Valid, Positioned;
    LeavesGood(tree);
    NodesExisting(tree);
    if tree.root == null {
      NothingStored();
      BoundSplits(KeysOf(tree.Items()), key, upper);
      it := End(tree);
    } else {
      TreeFacts(tree);
      var leaf, slot;
      ghost var i, visited;
      leaf, slot, i, visited := Descend(tree, key, upper);
      PositionedAt(tree, i, leaf, slot, Bound(KeysOf(tree.Items()), key, upper));
      it := new Iterator(leaf, slot);
    }
  }

  method LowerBound(tree: BTree, key: Key) returns (it: Iterator)
    requires tree.Valid()
    ensures fresh(it) && it.At(tree, FindLower(KeysOf(tree.Items()), key))
  {
    it := BoundPosition(tree, key, false);
  }

  method UpperBound(tree: BTree, key: Key) returns (it: Iterator)
    requires tree.Valid()
    ensures fresh(it) && it.At(tree, FindUpper(KeysOf(tree.Items()), key))
  {
    it := BoundPosition(tree, key, true);
  }

  /** The slot reached shows whether the key is there at all. */
  lemma {:induction false} FoundHere(tree: BTree, leaf: Node, slot: nat, i: nat, key: Key)
    requires tree.Valid() && i < |AllLeaves(tree)| && leaf == AllLeaves(tree)[i].ref
    requires IsAt(AllLeaves(tree), i, slot, FindLower(KeysOf(tree.Items()), key))
    ensures slot <= leaf.slotuse <= |leaf.slotkey|
    ensures slot < leaf.slotuse && leaf.slotkey[slot] == key <==> HasKey(tree.Items(), key)
  {
    hide IsAt, BTree.Valid, Flat, AllLeaves, FindLower, HasKey, SortedItems;
    var p := FindLower(KeysOf(tree.Items()), key);
    LeavesGood(tree);
    LeafFactsSorted(tree);
    AtFacts(AllLeaves(tree), i, slot, p);
    AtLast(AllLeaves(tree), i, slot, p);
    LeafAt(tree, i);
    AbsentInLeaf(tree.Items(), key);
  }

  lemma {:induction false} LeafFactsSorted(tree: BTree)
    requires tree.Valid()
    ensures SortedItems(tree.Items())
  {
    hide BTree.Valid, SortedItems, Flat;
    LeafFacts(tree);
  }

  /** `exists`. */
  method Exists(tree: BTree, key: Key) returns (found: bool)
    requires tree.Valid()
    ensures found <==> HasKey(tree.Items(), key)
  {
    hide HasKey, IsAt, BTree.Valid, FindLower, AllLeaves;
    LeavesGood(tree);
    NodesExisting(tree);
    if tree.root == null {
      NothingStored();
      HasSome(tree.Items(), key);
      return false;
    }
    TreeFacts(tree);
    var leaf, slot;
    ghost var i, visited;
    leaf, slot, i, visited := Descend(tree, key, false);
    FoundHere(tree, leaf, slot, i, key);
    return slot < leaf.slotuse && key == leaf.slotkey[slot];
  }

  /** `find`: the first pair with the key, or the end. */
  method Find(tree: BTree, key: Key) returns (it: Iterator)
    requires tree.Valid()
    ensures fresh(it)
    ensures it.At(tree, if HasKey(tree.Items(), key) then FindLower(KeysOf(tree.Items()), key) else |tree.Items()|)
  {
    hide HasKey, IsAt, BTree.Valid, FindLower, AllLeaves, Positioned;
    LeavesGood(tree);
    NodesExisting(tree);
    if tree.root == null {
      NothingStored();
      HasSome(tree.Items(), key);
      it := End(tree);
      return;
    }
    TreeFacts(tree);
    var leaf, slot;
    ghost var i, visited;
    leaf, slot, i, visited := Descend(tree, key, false);
    FoundHere(tree, leaf, slot, i, key);
    PositionedAt(tree, i, leaf, slot, FindLower(KeysOf(tree.Items()), key));
    if slot < leaf.slotuse && key == leaf.slotkey[slot] {
      it := new Iterator(leaf, slot);
    } else {
      it := End(tree);
    }
  }

  /** `count`: the run of pairs with the key, which may span leaves. */
  method Count(tree: BTree, key: Key) returns (num: nat)
    requires tree.Valid()
    ensures num == CountKey(tree.Items(), key)
  {
    hide IsAt, BTree.Valid, FindLower, AllLeaves, Positioned, Flat;
    LeavesGood(tree);
    NodesExisting(tree);
    if tree.root == null {
      NothingStored();
      return 0;
    }
    TreeFacts(tree);
    LeafFactsSorted(tree);
    var leaf: Node?, slot: nat;
    ghost var i, visited;
    leaf, slot, i, visited := Descend(tree, key, false);
    ghost var first := FindLower(KeysOf(tree.Items()), key);
    ghost var p := first;
    PositionedAt(tree, i, leaf, slot, p);
    num := 0;
    ForwardFacts(tree, leaf, slot, p);
    SlotStored(tree, leaf, slot, p);
    while leaf != null && slot < leaf.slotuse && key == leaf.slotkey[slot]
      invariant first <= p <= |tree.Items()| && num == p - first
      invariant leaf != null ==> leaf.slotuse <= |leaf.slotkey|
      invariant leaf != null ==> Positioned(tree, leaf, slot, p)
      invariant leaf == null ==> p == |tree.Items()|
      invariant forall k | first <= k < p :: tree.Items()[k].key == key
      decreases |tree.Items()| - p
    {
      SlotStored(tree, leaf, slot, p);
      ForwardFacts(tree, leaf, slot, p);
      if slot + 1 == leaf.slotuse { SlotAhead(tree, leaf, slot, p); }
      num := num + 1;
      p := p + 1;
      slot := slot + 1;
      if slot >= leaf.slotuse {
        leaf := leaf.nextleaf;
        slot := 0;
      }
    }
    if leaf != null { SlotStored(tree, leaf, slot, p); }
    CountRun(tree.Items(), key, first, p);
  }

  /** What a slot of a positioned leaf holds. */
  lemma {:induction false} SlotStored(tree: BTree, leaf: Node, slot: nat, p: nat)
    requires tree.Valid() && tree.root != null && Positioned(tree, leaf, slot, p)
    ensures slot <= leaf.slotuse <= |leaf.slotkey| && (slot < leaf.slotuse <==> p < |tree.Items()|)
    ensures p < |tree.Items()| ==> leaf.slotkey[slot] == tree.Items()[p].key
  {
    hide IsAt, BTree.Valid, Flat, AllLeaves, Positioned;
    LeavesGood(tree);
    var i := PositionOf(tree, leaf, slot, p);
    AtFacts(AllLeaves(tree), i, slot, p);
    AtLast(AllLeaves(tree), i, slot, p);
    LeafAt(tree, i);
  }

  /** The slot after a stored one, unless it is the next leaf's first. */
  lemma {:induction false} SlotAhead(tree: BTree, leaf: Node, slot: nat, p: nat)
    requires tree.Valid() && tree.root != null && Positioned(tree, leaf, slot, p) && slot + 1 == leaf.slotuse
    ensures leaf.nextleaf == null ==> p + 1 == |tree.Items()|
    ensures leaf.nextleaf != null ==> leaf.nextleaf.slotuse <= |leaf.nextleaf.slotkey|
  {
    hide IsAt, BTree.Valid, Flat, AllLeaves, Positioned;
    ForwardFacts(tree, leaf, slot, p);
    SlotStored(tree, leaf, slot, p);
    if leaf.nextleaf == null {
      SlotStored(tree, leaf, slot + 1, p + 1);
      ForwardFacts(tree, leaf, slot + 1, p + 1);
    } else {
      SlotStored(tree, leaf.nextleaf, 0, p + 1);
    }
  }

  /** In order, the pairs with a key are one run from its lower bound on. */
  lemma {:induction false} CountRun(s: seq<Item>, key: Key, lo: nat, hi: nat)
    requires SortedItems(s) && lo == FindLower(KeysOf(s), key) && lo <= hi <= |s|
    requires forall k | lo <= k < hi :: s[k].key == key
    requires hi < |s| ==> s[hi].key != key
    ensures CountKey(s, key) == hi - lo
  {
    var keys := KeysOf(s);
    assert s == s[..lo] + s[lo..hi] + s[hi..];
    CountConcat(s[..lo] + s[lo..hi], s[hi..], key);
    CountConcat(s[..lo], s[lo..hi], key);
    forall k | 0 <= k < lo ensures s[..lo][k].key != key { assert keys[k] < key; }
    CountUniform(s[..lo], key, false);
    CountUniform(s[lo..hi], key, true);
    forall k | 0 <= k < |s[hi..]| ensures s[hi..][k].key != key {
      assert s[hi].key <= s[hi + k].key;
      if hi < |s| { assert key <= keys[lo] == s[lo].key <= s[hi].key; }
    }
    CountUniform(s[hi..], key, false);
  }

  lemma {:induction false} CountConcat(a: seq<Item>, b: seq<Item>, key: Key)
    ensures CountKey(a + b, key) == CountKey(a, key) + CountKey(b, key)
  {
    if a == [] {
      assert a + b == b;
    } else {
      assert (a + b)[1..] == a[1..] + b;
      CountConcat(a[1..], b, key);
    }
  }

  lemma {:induction false} CountUniform(s: seq<Item>, key: Key, all: bool)
    requires forall k | 0 <= k < |s| :: s[k].key == key <==> all
    ensures CountKey(s, key) == if all then |s| else 0
  {
    if s != [] { CountUniform(s[1..], key, all); }
  }

  // The other direction

  /** Slot `slot` of leaf `i` has `p` pairs in front of it; slot 0 only in the first leaf. */
  ghost predicate IsBehind(leaves: seq<Tree>, i: nat, slot: nat, p: nat) {
    && i < |leaves| && leaves[i].Leaf? && slot <= |leaves[i].items|
    && p == |Flat(leaves[..i])| + slot
    && (slot == 0 ==> i == 0)
  }

  lemma {:induction false} BehindFacts(leaves: seq<Tree>, i: nat, slot: nat, p: nat)
    requires IsBehind(leaves, i, slot, p) && forall l | l in leaves :: l.Leaf? && l.items != []
    ensures slot <= p <= |Flat(leaves)| && (p > 0 <==> slot > 0)
    ensures slot > 0 ==> Flat(leaves)[p - 1] == leaves[i].items[slot - 1]
    ensures slot > 1 ==> IsBehind(leaves, i, slot - 1, p - 1)
    ensures slot == 1 && i > 0 ==> IsBehind(leaves, i - 1, |leaves[i - 1].items|, p - 1)
    ensures slot == 1 && i == 0 ==> IsBehind(leaves, i, 0, p - 1)
    ensures slot < |leaves[i].items| ==> p < |Flat(leaves)| && IsBehind(leaves, i, slot + 1, p + 1)
    ensures slot == |leaves[i].items| && i + 1 < |leaves| ==> p < |Flat(leaves)| && IsBehind(leaves, i + 1, 1, p + 1)
    ensures slot == |leaves[i].items| && i + 1 == |leaves| ==> p == |Flat(leaves)|
  {
    FlatAt(leaves, i);
    OffsetStep(leaves, i);
    if i + 1 < |leaves| { assert leaves[i + 1] in leaves; FlatSome(leaves[i + 1..]); } else { assert leaves[i + 1..] == []; }
    if i > 0 { OffsetStep(leaves, i - 1); assert leaves[i - 1] in leaves; }
  }

  ghost predicate PositionedBehind(tree: BTree, node: Node?, slot: nat, p: nat)
    reads tree`shape
  {
    if AllLeaves(tree) == [] then node == null && slot == 0 && p == 0
    else exists i | 0 <= i < |AllLeaves(tree)| :: IsBehind(AllLeaves(tree), i, slot, p) && node == AllLeaves(tree)[i].ref
  }

  lemma BehindOf(tree: BTree, node: Node?, slot: nat, p: nat) returns (i: nat)
    requires PositionedBehind(tree, node, slot, p) && AllLeaves(tree) != []
    ensures i < |AllLeaves(tree)| && IsBehind(AllLeaves(tree), i, slot, p) && node == AllLeaves(tree)[i].ref
  {
    i :| 0 <= i < |AllLeaves(tree)| && IsBehind(AllLeaves(tree), i, slot, p) && node == AllLeaves(tree)[i].ref;
  }

  lemma BehindAt(tree: BTree, i: nat, node: Node?, slot: nat, p: nat)
    requires i < |AllLeaves(tree)| && IsBehind(AllLeaves(tree), i, slot, p) && node == AllLeaves(tree)[i].ref
    ensures PositionedBehind(tree, node, slot, p)
  {
  }

  lemma {:induction false} BehindUnique(leaves: seq<Tree>, i: nat, slot: nat, p: nat, j: nat, other: nat, q: nat)
    requires IsBehind(leaves, i, slot, p) && IsBehind(leaves, j, other, q)
    ensures p == q <==> i == j && slot == other
  {
    if i < j { OffsetMonotone(leaves, i + 1, j); OffsetStep(leaves, i); }
    if j < i { OffsetMonotone(leaves, j + 1, i); OffsetStep(leaves, j); }
  }

  /** Where a step in reverse, forwards or back, ends up in memory. */
  lemma {:induction false} ReverseFacts(tree: BTree, node: Node?, slot: nat, p: nat)
    requires tree.Valid() && tree.root != null && PositionedBehind(tree, node, slot, p)
    ensures node != null && p <= |tree.Items()| && (p > 0 <==> slot > 0)
    ensures slot > 1 ==> PositionedBehind(tree, node, slot - 1, p - 1)
    ensures slot == 1 && node.prevleaf != null ==> PositionedBehind(tree, node.prevleaf, node.prevleaf.slotuse, p - 1)
    ensures slot == 1 && node.prevleaf == null ==> PositionedBehind(tree, node, 0, p - 1)
    ensures slot == 0 ==> node.prevleaf == null
    ensures slot < node.slotuse ==> p < |tree.Items()| && PositionedBehind(tree, node, slot + 1, p + 1)
    ensures slot >= node.slotuse && node.nextleaf != null ==> p < |tree.Items()| && PositionedBehind(tree, node.nextleaf, 1, p + 1)
    ensures slot >= node.slotuse && node.nextleaf == null ==> p == |tree.Items()| && slot == node.slotuse
    ensures 0 < slot <= node.slotuse ==> slot <= |node.slotkey| && slot <= |node.slotdata| && tree.Items()[p - 1] == Item(node.slotkey[slot - 1], node.slotdata[slot - 1])
    ensures slot <= node.slotuse
  {
    hide IsBehind, BTree.Valid, Flat, AllLeaves, PositionedBehind;
    var leaves := AllLeaves(tree);
    LeavesGood(tree);
    var i := BehindOf(tree, node, slot, p);
    BehindFacts(leaves, i, slot, p);
    BehindSlot(leaves, i, slot, p);
    LeafAt(tree, i);
    if slot > 1 { BehindAt(tree, i, node, slot - 1, p - 1); }
    if slot == 1 && i > 0 { LeafAt(tree, i - 1); BehindAt(tree, i - 1, node.prevleaf, node.prevleaf.slotuse, p - 1); }
    if slot == 1 && i == 0 { BehindAt(tree, i, node, 0, p - 1); }
    if slot < node.slotuse { BehindAt(tree, i, node, slot + 1, p + 1); }
    else if i + 1 < |leaves| { BehindAt(tree, i + 1, node.nextleaf, 1, p + 1); }
  }

  lemma BehindSlot(leaves: seq<Tree>, i: nat, slot: nat, p: nat)
    requires IsBehind(leaves, i, slot, p)
    ensures slot <= |leaves[i].items| && (slot == 0 ==> i == 0)
  {
  }

  /** A reverse iterator: `p` pairs are still to come, the next one is in the slot before. */
  class ReverseIterator {
    var currnode: Node?
    var currslot: nat

    /** From an iterator, with its node and slot. */
    constructor (it: Iterator)
      ensures currnode == it.currnode && currslot == it.currslot
    {
      currnode, currslot := it.currnode, it.currslot;
    }

    ghost predicate At(tree: BTree, p: nat)
      reads this, tree`shape
    {
      PositionedBehind(tree, currnode, currslot, p)
    }

    method Get(ghost tree: BTree, ghost p: nat) returns (x: Item)
      requires tree.Valid() && At(tree, p) && 0 < p && tree.root != null
      ensures p <= |tree.Items()| && x == tree.Items()[p - 1]
    {
      hide PositionedBehind, BTree.Valid;
      ReverseFacts(tree, currnode, currslot, p);
      x := Item(currnode.slotkey[currslot - 1], currnode.slotdata[currslot - 1]);
    }

    /** `++`, towards the front. */
    method Next(ghost tree: BTree, ghost p: nat)
      requires tree.Valid() && At(tree, p) && tree.root != null
      modifies this
      ensures At(tree, if p > 0 then p - 1 else p)
    {
      hide PositionedBehind, BTree.Valid;
      ReverseFacts(tree, currnode, currslot, p);
      if currslot > 1 {
        currslot := currslot - 1;
      } else if currnode.prevleaf != null {
        currnode := currnode.prevleaf;
        currslot := currnode.slotuse;
      } else {
        currslot := 0;
      }
    }

    /** `--`, towards the back. */
    method Prev(ghost tree: BTree, ghost p: nat)
      requires tree.Valid() && At(tree, p) && tree.root != null
      modifies this
      ensures At(tree, if p < |tree.Items()| then p + 1 else p)
    {
      hide PositionedBehind, BTree.Valid;
      ReverseFacts(tree, currnode, currslot, p);
      if currslot < currnode.slotuse {
        currslot := currslot + 1;
      } else if currnode.nextleaf != null {
        currnode := currnode.nextleaf;
        currslot := 1;
      } else {
        currslot := currnode.slotuse;
      }
    }

    method Equals(other: ReverseIterator, ghost tree: BTree, ghost p: nat, ghost q: nat) returns (same: bool)
      requires tree.Valid() && At(tree, p) && other.At(tree, q)
      ensures same <==> p == q
    {
      hide IsBehind, BTree.Valid, Flat;
      same := currnode == other.currnode && currslot == other.currslot;
      LeavesGood(tree);
      if AllLeaves(tree) != [] {
        ghost var i := BehindOf(tree, currnode, currslot, p);
        ghost var j := BehindOf(tree, other.currnode, other.currslot, q);
        BehindUnique(AllLeaves(tree), i, currslot, p, j, other.currslot, q);
        ChainDistinct(tree, i, j);
      }
    }
  }

  /**
   * An iterator turned round keeps its node and slot. It stays at its position
   * unless it was at the front of a leaf that is not the first, where the
   * slot it would read is -1.
   */
  lemma {:induction false} TurnedRound(tree: BTree, node: Node?, slot: nat, p: nat)
    requires tree.Valid() && Positioned(tree, node, slot, p)
    ensures PositionedBehind(tree, node, slot, p) <==> slot > 0 || p == 0
    ensures p == |tree.Items()| ==> slot > 0 || p == 0
    ensures forall q | 0 <= q :: PositionedBehind(tree, node, slot, q) ==> q == p
  {
    hide BTree.Valid, Flat;
    LeavesGood(tree);
    var leaves := AllLeaves(tree);
    if leaves != [] {
      var i := PositionOf(tree, node, slot, p);
      AtFacts(leaves, i, slot, p);
      assert leaves[i] in leaves;
      if slot > 0 || p == 0 { BehindAt(tree, i, node, slot, p); }
      forall q | 0 <= q && PositionedBehind(tree, node, slot, q) ensures q == p && (slot == 0 ==> i == 0) {
        var j := BehindOf(tree, node, slot, q);
        ChainDistinct(tree, i, j);
      }
    }
  }

  /**
   * A reverse iterator turned round again stays at its position unless it was
   * behind the last pair of a leaf that is not the last, where the slot is stale.
   */
  lemma {:induction false} TurnedBack(tree: BTree, node: Node?, slot: nat, p: nat)
    requires tree.Valid() && PositionedBehind(tree, node, slot, p)
    ensures Positioned(tree, node, slot, p) <==> node == null || slot < node.slotuse || p == |tree.Items()|
    ensures forall q | 0 <= q :: Positioned(tree, node, slot, q) ==> q == p
  {
    hide BTree.Valid, Flat;
    LeavesGood(tree);
    var leaves := AllLeaves(tree);
    if leaves != [] {
      var i := BehindOf(tree, node, slot, p);
      BehindFacts(leaves, i, slot, p);
      LeafAt(tree, i);
      if slot < node.slotuse || p == |tree.Items()| { PositionedAt(tree, i, node, slot, p); }
      forall q | 0 <= q && Positioned(tree, node, slot, q) ensures q == p && (slot == node.slotuse ==> i + 1 == |leaves|) {
        var j := PositionOf(tree, node, slot, q);
        ChainDistinct(tree, i, j);
      }
    }
  }

  /** A tree with one pair more than fits into a leaf: keys inserted in ascending order. */
  method Overfull(data: Data) returns (tree: BTree)
    ensures fresh(tree) && tree.Valid() && |tree.Items()| == LEAF_SLOT_MAX + 1
  {
    hide BTree.Valid, BTree.Items, BTree.Nodes, LeavesOf, Located;
    tree := new BTree();
    NoNodes(tree);
    var n: Key := 0;
    while n <= LEAF_SLOT_MAX
      invariant 0 <= n <= LEAF_SLOT_MAX + 1 && fresh(tree) && tree.Valid() && fresh(tree.Nodes())
      invariant |tree.Items()| == n && forall x | x in tree.Items() :: x.key < n
    {
      NodesExisting(tree);
      ghost var before, nodes := tree.Items(), tree.Nodes();
      var place, slot, inserted;
      ghost var p;
      place, slot, inserted, p := tree.Insert(n, data);
      assert forall x | x in tree.Items() :: x in before || x == Item(n, data);
      NodesExisting(tree);
      assert tree.Nodes() <= nodes + (tree.Nodes() - nodes);
      n := n + 1;
    }
  }

  lemma NoNodes(tree: BTree)
    requires tree.shape.None?
    ensures tree.Nodes() == {}
  {
  }

  /** One pair more than fits into a leaf, and there is a second leaf. */
  lemma {:induction false} SecondLeaf(tree: BTree)
    requires tree.Valid() && |tree.Items()| > LEAF_SLOT_MAX
    ensures |AllLeaves(tree)| > 1
    ensures var a, b := AllLeaves(tree)[0], AllLeaves(tree)[1];
      && a.Leaf? && a.items != [] && a.ref == tree.headleaf && b.ref == a.ref.nextleaf && a.ref.slotuse == |a.items|
      && Positioned(tree, b.ref, 0, |a.items|) && PositionedBehind(tree, a.ref, |a.items|, |a.items|)
      && |a.items| < |tree.Items()|
  {
    hide BTree.Valid, Flat, AllLeaves, Positioned, PositionedBehind;
    var leaves := AllLeaves(tree);
    LeavesGood(tree);
    NotOverfull(tree);
    FlatNone();
    assert leaves != [];
    LeafFacts(tree);
    LeafAt(tree, 0);
    OffsetStep(leaves, 0);
    assert leaves[..0] == [] && leaves[0] in leaves;
    assert leaves == leaves[..1] + leaves[1..];
    FlatConcat(leaves[..1], leaves[1..]);
    PositionedAt(tree, 1, leaves[1].ref, 0, |leaves[0].items|);
    BehindAt(tree, 0, leaves[0].ref, |leaves[0].items|, |leaves[0].items|);
  }

  lemma FlatNone()
    ensures Flat([]) == []
  {
  }

  lemma NotOverfull(tree: BTree)
    requires tree.Valid()
    ensures forall l | l in AllLeaves(tree) :: l.Leaf? && |l.items| <= LEAF_SLOT_MAX
  {
    if tree.shape.Some? { LeavesFilled(tree.shape.value, 1); }
  }

  /**
   * There are such positions: an iterator at the front of the second leaf that,
   * turned round, has no position, and a reverse iterator behind the last pair
   * of the first leaf that, turned round, has none either.
   */
  method LostPositions(data: Data) returns (tree: BTree, it: Iterator, back: ReverseIterator, ghost p: nat)
    ensures tree.Valid() && 0 < p < |tree.Items()| && it.At(tree, p) && back.At(tree, p)
    ensures forall q: nat :: !PositionedBehind(tree, it.currnode, it.currslot, q)
    ensures forall q: nat :: !Positioned(tree, back.currnode, back.currslot, q)
  {
    hide BTree.Valid, BTree.Items, AllLeaves, Positioned, PositionedBehind;
    tree := Overfull(data);
    SecondLeaf(tree);
    NodesExisting(tree);
    var first := tree.headleaf;
    it := new Iterator(first.nextleaf, 0);
    p := |AllLeaves(tree)[0].items|;
    TurnedRound(tree, it.currnode, 0, p);
    TurnedBack(tree, first, first.slotuse, p);
    var end := new Iterator(first, first.slotuse);
    back := new ReverseIterator(end);
  }

  /** A walk with `++` from `rbegin()` to `rend()` sees every pair once, backwards. */
  method WalkBack(tree: BTree) returns (seen: seq<Item>)
    requires tree.Valid()
    ensures |seen| == |tree.Items()|
    ensures forall k | 0 <= k < |seen| :: seen[k] == tree.Items()[|seen| - 1 - k]
  {
    hide Positioned, PositionedBehind, BTree.Valid;
    LeavesGood(tree);
    NodesExisting(tree);
    var last, first := ReverseEnds(tree);
    NothingStored();
    seen := [];
    ghost var p: nat := |tree.Items()|;
    var done := last.Equals(first, tree, p, 0);
    while !done
      invariant tree.Valid() && fresh(last) && last != first
      invariant p <= |tree.Items()| && last.At(tree, p) && first.At(tree, 0)
      invariant done <==> p == 0
      invariant |seen| == |tree.Items()| - p
      invariant forall k | 0 <= k < |seen| :: seen[k] == tree.Items()[|tree.Items()| - 1 - k]
      decreases p
    {
      var x := last.Get(tree, p);
      seen := seen + [x];
      last.Next(tree, p);
      p := p - 1;
      done := last.Equals(first, tree, p, 0);
    }
  }

  method ReverseEnds(tree: BTree) returns (rbegin: ReverseIterator, rend: ReverseIterator)
    requires tree.Valid()
    ensures fresh(rbegin) && fresh(rend) && rbegin != rend
    ensures rbegin.At(tree, |tree.Items()|) && rend.At(tree, 0)
  {
    hide Positioned, PositionedBehind, BTree.Valid;
    NodesExisting(tree);
    var it := End(tree);
    TurnedRound(tree, it.currnode, it.currslot, |tree.Items()|);
    rbegin := new ReverseIterator(it);
    it := Begin(tree);
    TurnedRound(tree, it.currnode, it.currslot, 0);
    rend := new ReverseIterator(it);
  }

  // How deep a tree can be

  function Power(b: nat, e: nat): nat {
    if e == 0 then 1 else b * Power(b, e - 1)
  }

  /** The least number of pairs below a node of the given level that is not the root. */
  lemma {:induction false} LeastContents(t: Tree)
    requires Valid(t, t.MinSlots())
    ensures |Contents(t)| >= Power(INNER_SLOT_MAX / 2 + 1, t.Level()) * (LEAF_SLOT_MAX / 2)
    decreases t, 0
  {
    if t.Leaf? {
    } else {
      var least := Power(INNER_SLOT_MAX / 2 + 1, t.level - 1) * (LEAF_SLOT_MAX / 2);
      forall i | 0 <= i < |t.kids| ensures |Contents(t.kids[i])| >= least { LeastContents(t.kids[i]); }
      FlatLeast(t.kids, least);
      Product(|t.kids|, INNER_SLOT_MAX / 2 + 1, Power(INNER_SLOT_MAX / 2 + 1, t.level - 1), LEAF_SLOT_MAX / 2);
    }
  }

  lemma Product(n: nat, b: nat, p: nat, m: nat)
    requires n >= b
    ensures n * (p * m) >= b * p * m
  {
    assert n * (p * m) >= b * (p * m);
  }

  lemma {:induction false} FlatLeast(kids: seq<Tree>, least: nat)
    requires forall i | 0 <= i < |kids| :: |Contents(kids[i])| >= least
    ensures |Flat(kids)| >= |kids| * least
  {
    if kids != [] {
      forall i | 0 <= i < |kids[1..]| ensures |Contents(kids[1..][i])| >= least { assert kids[1..][i] == kids[i + 1]; }
      FlatLeast(kids[1..], least);
      assert |kids| * least == least + (|kids| - 1) * least;
    }
  }

  /** A tree of height `h` is exponentially large. */
  lemma {:induction false} HeightBound(root: Tree)
    requires Valid(root, 1) && root.Inner?
    ensures |Contents(root)| >= 2 * Power(INNER_SLOT_MAX / 2 + 1, root.level - 1) * (LEAF_SLOT_MAX / 2)
  {
    var least := Power(INNER_SLOT_MAX / 2 + 1, root.level - 1) * (LEAF_SLOT_MAX / 2);
    forall i | 0 <= i < |root.kids| ensures |Contents(root.kids[i])| >= least { LeastContents(root.kids[i]); }
    FlatLeast(root.kids, least);
    Product(|root.kids|, 2, Power(INNER_SLOT_MAX / 2 + 1, root.level - 1), LEAF_SLOT_MAX / 2);
  }

  /** The least number of pairs in a tree whose lookups visit so many nodes. */
  function LeastItems(visited: nat): nat {
    if visited <= 1 then 1 else 2 * Power(INNER_SLOT_MAX / 2 + 1, visited - 2) * (LEAF_SLOT_MAX / 2)
  }

  /** So a descent visits at most logarithmically many nodes. */
  lemma {:induction false} VisitedFew(root: Tree, visited: nat)
    requires Valid(root, 1) && visited == root.Level() + 1
    ensures |Contents(root)| >= LeastItems(visited)
  {
    hide Power;
    Bounds(root, 1);
    if root.Inner? { HeightBound(root); }
  }
}
