/** Deep copies of a tree, and its binary image written out and read back. */
module BTreeCopy {
  import opened BTreeNode
  import opened BTreeItems
  import opened BTreeTree
  import opened BTreeErase
  import opened BTreeShape
  import opened BTreeMemory
  import opened BTreeRepair
  import opened BTreeChain
  import opened BTreeGrow
  import opened BTreeClass
  import opened Options

  /** The same levels, keys and pairs, in whatever nodes. */
  ghost predicate SameTree(t: Tree, u: Tree)
    decreases t
  {
    match t
    case Leaf(_, items) => u.Leaf? && u.items == items
    case Inner(_, level, keys, kids) =>
      && u.Inner? && u.level == level && u.keys == keys && |u.kids| == |kids|
      && forall i | 0 <= i < |kids| :: SameTree(kids[i], u.kids[i])
  }

  /** The invariant, the contents and the node counts depend on nothing else. */
  lemma {:induction false} SameTreeFacts(t: Tree, u: Tree)
    requires SameTree(t, u)
    ensures Contents(u) == Contents(t) && u.Level() == t.Level() && u.MinSlots() == t.MinSlots()
    ensures |LeafRefs(u)| == |LeafRefs(t)| && InnerCount(u) == InnerCount(t)
    decreases t, 0
  {
    if t.Inner? { SameKidsFacts(t.kids, u.kids); }
  }

  lemma {:induction false} SameKidsFacts(a: seq<Tree>, b: seq<Tree>)
    requires |a| == |b| && forall i | 0 <= i < |a| :: SameTree(a[i], b[i])
    ensures Flat(b) == Flat(a)
    ensures |LeafRefsAll(b)| == |LeafRefsAll(a)| && InnerCountAll(b) == InnerCountAll(a)
    decreases a, 1
  {
    if a != [] {
      SameTreeFacts(a[0], b[0]);
      forall i | 0 <= i < |a[1..]| ensures SameTree(a[1..][i], b[1..][i]) { assert a[1..][i] == a[i + 1] && b[1..][i] == b[i + 1]; }
      SameKidsFacts(a[1..], b[1..]);
    }
  }

  lemma {:induction false} SameTreeValid(t: Tree, u: Tree, few: nat)
    requires SameTree(t, u) && Valid(t, few)
    ensures Valid(u, few)
    decreases t
  {
    if t.Inner? {
      Bounds(t, few);
      forall i | 0 <= i < |t.kids|
        ensures u.kids[i].Level() + 1 == t.level && Valid(u.kids[i], u.kids[i].MinSlots())
        ensures Contents(u.kids[i]) == Contents(t.kids[i])
      {
        SameTreeFacts(t.kids[i], u.kids[i]);
        SameTreeValid(t.kids[i], u.kids[i], t.kids[i].MinSlots());
      }
      SameSeparated(t.keys, t.kids, u.kids);
    }
  }

  lemma SameSeparated(keys: seq<Key>, a: seq<Tree>, b: seq<Tree>)
    requires Separated(keys, a) && |a| == |b| && forall i | 0 <= i < |a| :: Contents(b[i]) == Contents(a[i])
    ensures Separated(keys, b)
  {
    forall i | 0 <= i < |keys| ensures keys[i] == HighKey(b[i]) && keys[i] <= LowKey(b[i + 1]) {
      assert keys[i] == HighKey(a[i]) && keys[i] <= LowKey(a[i + 1]);
    }
  }

  // The chain while leaves are appended

  /** A chain whose last leaf may still point anywhere. */
  ghost predicate OpenChain(chain: seq<Node>)
    reads NodesIn(chain)`prevleaf, NodesIn(chain)`nextleaf
  {
    && (forall i, j | 0 <= i < j < |chain| :: chain[i] != chain[j])
    && (forall i | 0 <= i < |chain| - 1 :: chain[i].nextleaf == chain[i + 1])
    && (forall i | 0 <= i < |chain| :: chain[i].prevleaf == PrevIn(chain, i))
  }

  ghost predicate OpenLinked(tree: BTree, chain: seq<Node>)
    reads tree`headleaf, tree`tailleaf, NodesIn(chain)`prevleaf, NodesIn(chain)`nextleaf
  {
    OpenChain(chain) && tree.headleaf == First(chain) && tree.tailleaf == Last(chain)
  }

  lemma ClosedChain(tree: BTree, chain: seq<Node>)
    requires OpenLinked(tree, chain) && (chain != [] ==> chain[|chain| - 1].nextleaf == null)
    ensures tree.Linked(chain)
  {
  }

  /** The end of `copy_recursive` and `restore_node` at a leaf: the leaf follows the tail. */
  method AppendLeaf(tree: BTree, leaf: Node, ghost chain: seq<Node>)
    requires OpenLinked(tree, chain) && leaf !in chain
    requires chain == [] ==> leaf.prevleaf == null
    modifies tree`headleaf, tree`tailleaf, leaf`prevleaf, NodesIn(chain)`nextleaf
    ensures OpenLinked(tree, chain + [leaf])
    ensures leaf.nextleaf == old(leaf.nextleaf)
  {
    if tree.headleaf == null {
      tree.headleaf, tree.tailleaf := leaf, leaf;
    } else {
      leaf.prevleaf := tree.tailleaf;
      tree.tailleaf.nextleaf := leaf;
      tree.tailleaf := leaf;
    }
    ghost var longer := chain + [leaf];
    forall i | 0 <= i < |longer| - 1 ensures longer[i].nextleaf == longer[i + 1] {
      if i < |chain| - 1 { assert chain[i] != chain[|chain| - 1]; }
    }
    forall i | 0 <= i < |longer| ensures longer[i].prevleaf == PrevIn(longer, i) {
      if i < |chain| { assert chain[i] != leaf; }
    }
  }

  // Copying

  /** What a new subtree must be, once `chain` leads up to its leaves. */
  twostate predicate Built(tree: BTree, t: Tree, new u: Tree, chain: seq<Node>)
    reads *
  {
    && SameTree(t, u) && Apart(u) && Holds(u) && fresh(Foot(u))
    && OpenLinked(tree, chain + LeafRefs(u))
    && tree.leaves == old(tree.leaves) + |LeafRefs(u)| && tree.innernodes == old(tree.innernodes) + InnerCount(u)
  }

  /** `copy_recursive`. */
  method CopyRecursive(tree: BTree, n: Node, ghost t: Tree, ghost chain: seq<Node>) returns (copy: Node, ghost u: Tree)
    requires Holds(t) && n == t.ref && OpenLinked(tree, chain)
    modifies tree`headleaf, tree`tailleaf, tree`leaves, tree`innernodes, NodesIn(chain)`nextleaf
    ensures copy == u.ref && Built(tree, t, u, chain)
    ensures LeafRefs(u) != [] && LeafRefs(u)[|LeafRefs(u)| - 1].nextleaf == null
    decreases t, 1
  {
    hide Holds, OpenLinked;
    LeafOrInner(t);
    if n.level == 0 {
      copy, u := CopyLeaf(tree, n, t, chain);
    } else {
      copy, u := CopyInner(tree, n, t, chain);
    }
  }

  method CopyLeaf(tree: BTree, n: Node, ghost t: Tree, ghost chain: seq<Node>) returns (copy: Node, ghost u: Tree)
    requires Holds(t) && n == t.ref && t.Leaf? && OpenLinked(tree, chain)
    modifies tree`headleaf, tree`tailleaf, tree`leaves, NodesIn(chain)`nextleaf
    ensures copy == u.ref && Built(tree, t, u, chain)
    ensures LeafRefs(u) == [copy] && copy.nextleaf == null
  {
    hide OpenLinked, LeafHolds, LeafRefs, InnerCount;
    ChainExisting(chain);
    copy := new Node.InitLeaf();
    tree.leaves := tree.leaves + 1;
    FillLeaf(copy, n, t.items);
    AppendLeaf(tree, copy, chain);
    u := Leaf(copy, t.items);
    LeafShape(u);
  }

  /** The used slots of a leaf copied to a new one. */
  method FillLeaf(copy: Node, n: Node, ghost items: seq<Item>)
    requires LeafHolds(n, items) && copy != n && copy.level == 0
    requires |copy.slotkey| == |copy.slotdata| == LEAF_SLOT_MAX
    modifies copy`slotkey, copy`slotdata, copy`slotuse
    ensures LeafHolds(copy, items)
  {
    hide Overwritten;
    copy.slotuse := n.slotuse;
    EmptyPrefix(copy.slotkey);
    EmptyPrefix(copy.slotdata);
    SlotsAppended(copy.slotkey, [], n.slotkey, KeysOf(items), 0, |items|);
    SlotsAppended(copy.slotdata, [], n.slotdata, DataOf(items), 0, |items|);
    copy.CopyLeafSlots(0, n, 0, n.slotuse);
  }

  /** The children built so far, and their places in the new node. */
  ghost predicate KidsBuilt(tree: BTree, node: Node, kids: seq<Tree>, us: seq<Tree>, chain: seq<Node>)
    reads node`childid, tree`headleaf, tree`tailleaf
    reads FootAll(us)`level, FootAll(us)`slotuse, FootAll(us)`slotkey, FootAll(us)`childid, FootAll(us)`slotdata
    reads NodesIn(chain + LeafRefsAll(us))`prevleaf, NodesIn(chain + LeafRefsAll(us))`nextleaf
  {
    && |us| <= |kids| && (forall i | 0 <= i < |us| :: SameTree(kids[i], us[i]))
    && AllApart(us) && AllHold(us) && node !in FootAll(us)
    && OpenLinked(tree, chain + LeafRefsAll(us))
    && |us| <= |node.childid| && node.childid[..|us|] == RefsOf(us)
  }

  /** One more child. */
  lemma {:induction false} KidsBuiltStep(tree: BTree, node: Node, kids: seq<Tree>, us: seq<Tree>, v: Tree, chain: seq<Node>)
    requires |us| < |kids| && (forall i | 0 <= i < |us| :: SameTree(kids[i], us[i])) && SameTree(kids[|us|], v)
    requires AllApart(us) && AllHold(us) && node !in FootAll(us)
    requires Apart(v) && Holds(v) && Foot(v) !! FootAll(us) && node !in Foot(v)
    requires OpenLinked(tree, (chain + LeafRefsAll(us)) + LeafRefs(v))
    requires |us| < |node.childid| && node.childid[..|us|] == RefsOf(us) && node.childid[|us|] == v.ref
    ensures KidsBuilt(tree, node, kids, us + [v], chain)
    ensures FootAll(us + [v]) == FootAll(us) + Foot(v)
    ensures LeafRefsAll(us + [v]) == LeafRefsAll(us) + LeafRefs(v) && InnerCountAll(us + [v]) == InnerCountAll(us) + InnerCount(v)
  {
    hide SameTree, AllApart, AllHold, Apart, Holds, Foot, FootAll, OpenLinked, LeafRefs, LeafRefsAll, InnerCount, InnerCountAll;
    FootConcat(us, [v]);
    ShapeConcat(us, [v]);
    ShapeOne(v);
    AllHoldConcat(us, [v]);
    AllHoldTwo(v, v);
    assert chain + (LeafRefsAll(us) + LeafRefs(v)) == (chain + LeafRefsAll(us)) + LeafRefs(v);
    RefsJoined(us, [v]);
    assert RefsOf([v]) == [v.ref];
    assert node.childid[..|us| + 1] == node.childid[..|us|] + [node.childid[|us|]];
  }

  method CopyInner(tree: BTree, n: Node, ghost t: Tree, ghost chain: seq<Node>) returns (copy: Node, ghost u: Tree)
    requires Holds(t) && n == t.ref && t.Inner? && OpenLinked(tree, chain)
    modifies tree`headleaf, tree`tailleaf, tree`leaves, tree`innernodes, NodesIn(chain)`nextleaf
    ensures copy == u.ref && Built(tree, t, u, chain)
    ensures LeafRefs(u) != [] && LeafRefs(u)[|LeafRefs(u)| - 1].nextleaf == null
    decreases t, 0
  {
    hide Holds, OpenLinked, SameTree, AllApart, Apart, AllHold, Foot, FootAll, LeafRefs, LeafRefsAll, InnerCount, InnerCountAll, KidsBuilt, RefsOf;
    Existing(t);
    ChainExisting(chain);
    InnerParts(t);
    copy := new Node.InitInner(n.level);
    tree.innernodes := tree.innernodes + 1;
    FillKeys(copy, n, t.keys);
    ghost var us: seq<Tree> := [];
    NothingBuilt(tree, copy, t.kids, chain);
    var slot := 0;
    while slot <= n.slotuse
      invariant Holds(t) && slot <= |t.kids| && n.slotuse == |t.keys| && |us| == slot
      invariant KidsBuilt(tree, copy, t.kids, us, chain)
      invariant fresh(FootAll(us))
      invariant |copy.slotkey| == INNER_SLOT_MAX && |copy.childid| == INNER_SLOT_MAX + 1
      invariant copy.level == t.level && copy.slotuse == |t.keys| && copy.slotkey[..|t.keys|] == t.keys
      invariant tree.leaves == old(tree.leaves) + |LeafRefsAll(us)|
      invariant tree.innernodes == old(tree.innernodes) + 1 + InnerCountAll(us)
      invariant slot > 0 ==> LeafRefsAll(us) != [] && LeafRefsAll(us)[|LeafRefsAll(us)| - 1].nextleaf == null
    {
      Existing(t);
      AllLeavesInside(us);
      ghost var more := CopyChild(tree, copy, n, slot, t, us, chain);
      AllExisting(more);
      forall m | m in FootAll(more) ensures fresh(m) { if m !in FootAll(us) { assert m in FootAll(more) - FootAll(us); } }
      us := more;
      slot := slot + 1;
    }
    u := Inner(copy, t.level, t.keys, us);
    KidsComplete(tree, copy, t, us, chain);
  }

  lemma InnerParts(t: Tree)
    requires t.Inner? && Holds(t)
    ensures InnerHolds(t.ref, t.level, t.keys, RefsOf(t.kids)) && |t.kids| == |t.keys| + 1
    ensures t.ref.level == t.level && t.ref.slotuse == |t.keys| <= INNER_SLOT_MAX && t.level > 0
    ensures |t.kids| <= |t.ref.childid| && forall i | 0 <= i < |t.kids| :: t.ref.childid[i] == t.kids[i].ref
  {
    SlotsAt(t.ref.childid, RefsOf(t.kids));
  }

  lemma NothingBuilt(tree: BTree, node: Node, kids: seq<Tree>, chain: seq<Node>)
    requires OpenLinked(tree, chain)
    ensures KidsBuilt(tree, node, kids, [], chain) && FootAll([]) == {} && LeafRefsAll([]) == [] && InnerCountAll([]) == 0
  {
    assert chain + LeafRefsAll([]) == chain;
  }

  lemma {:induction false} KidsComplete(tree: BTree, node: Node, t: Tree, us: seq<Tree>, chain: seq<Node>)
    requires t.Inner? && KidsBuilt(tree, node, t.kids, us, chain) && |us| == |t.kids| == |t.keys| + 1 && t.level > 0
    requires node.level == t.level && node.slotuse == |t.keys| <= INNER_SLOT_MAX
    requires |node.slotkey| == INNER_SLOT_MAX && |node.childid| == INNER_SLOT_MAX + 1 && node.slotkey[..|t.keys|] == t.keys
    ensures var u := Inner(node, t.level, t.keys, us);
      && SameTree(t, u) && Apart(u) && Holds(u) && Foot(u) == {node} + FootAll(us)
      && OpenLinked(tree, chain + LeafRefs(u)) && LeafRefs(u) == LeafRefsAll(us) && InnerCount(u) == 1 + InnerCountAll(us)
  {
    hide Holds, OpenLinked, AllApart, AllHold, FootAll, LeafRefsAll, InnerCountAll;
    var u := Inner(node, t.level, t.keys, us);
    HoldsTop(u);
  }

  /** One turn of the loop over the children. */
  method CopyChild(tree: BTree, copy: Node, n: Node, slot: nat, ghost t: Tree, ghost us: seq<Tree>, ghost chain: seq<Node>)
    returns (ghost more: seq<Tree>)
    requires Holds(t) && n == t.ref && t.Inner? && slot == |us| < |t.kids| && copy !in Foot(t)
    requires KidsBuilt(tree, copy, t.kids, us, chain) && |copy.childid| == INNER_SLOT_MAX + 1
    modifies tree`headleaf, tree`tailleaf, tree`leaves, tree`innernodes, NodesIn(chain + LeafRefsAll(us))`nextleaf, copy`childid
    ensures |more| == |us| + 1 && KidsBuilt(tree, copy, t.kids, more, chain) && |copy.childid| == INNER_SLOT_MAX + 1
    ensures fresh(FootAll(more) - FootAll(us))
    ensures tree.leaves - |LeafRefsAll(more)| == old(tree.leaves) - |LeafRefsAll(us)|
    ensures tree.innernodes - InnerCountAll(more) == old(tree.innernodes) - InnerCountAll(us)
    ensures LeafRefsAll(more) != [] && LeafRefsAll(more)[|LeafRefsAll(more)| - 1].nextleaf == null
    decreases t, 0, 0
  {
    hide Holds, OpenLinked, SameTree, AllApart, Apart, AllHold, Foot, FootAll, LeafRefs, LeafRefsAll, InnerCount, InnerCountAll, RefsOf;
    Existing(t);
    AllExisting(us);
    InnerParts(t);
    KidLevel(t, slot);
    var child;
    ghost var v;
    child, v := CopyRecursive(tree, n.childid[slot], t.kids[slot], chain + LeafRefsAll(us));
    Existing(v);
    ChainExisting((chain + LeafRefsAll(us)) + LeafRefs(v));
    copy.childid := copy.childid[slot := child];
    KidsBuiltStep(tree, copy, t.kids, us, v, chain);
    more := us + [v];
  }

  method FillKeys(copy: Node, n: Node, ghost keys: seq<Key>)
    requires n.slotuse == |keys| <= |n.slotkey| <= |copy.slotkey| && n.slotkey[..|keys|] == keys && copy != n
    modifies copy`slotuse, copy`slotkey
    ensures copy.slotuse == |keys| <= |copy.slotkey| == old(|copy.slotkey|) && copy.slotkey[..|keys|] == keys
  {
    copy.slotuse := n.slotuse;
    var i := 0;
    while i < n.slotuse
      invariant i <= |keys| && n.slotuse == |keys| == copy.slotuse && |copy.slotkey| == old(|copy.slotkey|)
      invariant copy.slotkey[..i] == n.slotkey[..i]
    {
      copy.slotkey := copy.slotkey[i := n.slotkey[i]];
      i := i + 1;
    }
  }

  /** A shape built node by node makes the object whole again. */
  lemma {:induction false} BuiltWhole(tree: BTree, t: Tree, u: Tree)
    requires SameTree(t, u) && Valid(t, 1) && Apart(u) && Holds(u)
    requires tree.shape == Some(u) && tree.root == u.ref && tree.Linked(LeafRefs(u))
    requires tree.itemcount == |Contents(t)| && tree.leaves == |LeafRefs(u)| && tree.innernodes == InnerCount(u)
    requires !ALLOW_DUPLICATES ==> UniqueKeys(Contents(t))
    ensures tree.Valid() && tree.Items() == Contents(t) && tree.Nodes() == Foot(u)
  {
    hide SameTree, Apart, Holds, LeafRefs, InnerCount, Foot, UniqueKeys, Valid;
    SameTreeFacts(t, u);
    SameTreeValid(t, u, 1);
    tree.Assembled(u);
  }

  /** The copy constructor: an equal tree that shares no node. */
  method Copy(other: BTree) returns (tree: BTree)
    requires other.Valid()
    ensures fresh(tree) && fresh(tree.Nodes()) && tree.Valid() && other.Valid()
    ensures tree.Items() == other.Items()
    ensures other.shape.Some? ==> tree.shape.Some? && SameTree(other.shape.value, tree.shape.value)
  {
    hide Holds, BTree.Linked, SameTree, UniqueKeys, LeafRefs, InnerCount, Foot, Apart, OpenLinked, Valid, Contents;
    NodesExistingIn(other);
    if other.shape.Some? { Existing(other.shape.value); }
    tree := new BTree();
    tree.itemcount := other.itemcount;
    if other.root != null {
      ghost var t := other.shape.value;
      NoChain(tree);
      var copy;
      ghost var u;
      copy, u := CopyRecursive(tree, other.root, t, []);
      Existing(u);
      ChainExisting(LeafRefs(u));
      assert [] + LeafRefs(u) == LeafRefs(u);
      ClosedChain(tree, LeafRefs(u));
      tree.root := copy;
      tree.shape := Some(u);
      BuiltWhole(tree, t, u);
    }
  }

  lemma NodesExistingIn(tree: BTree)
    ensures forall n | n in tree.Nodes() :: allocated(n)
    ensures forall n | n in NodesIn(tree.Chain()) :: allocated(n)
  {
    if tree.shape.Some? { Existing(tree.shape.value); }
    ChainExisting(tree.Chain());
  }

  lemma NoChain(tree: BTree)
    requires tree.headleaf == null && tree.tailleaf == null
    ensures OpenLinked(tree, [])
  {
  }

  // The binary image

  /** One node as it is written out, pointers and stale slots included. */
  datatype NodeImage = NodeImage(level: nat, slotuse: nat, slotkey: seq<Key>, childid: seq<Node?>, slotdata: seq<Data>,
                                 prevleaf: Node?, nextleaf: Node?)

  const KEY_TYPE_SIZE: nat
  const DATA_TYPE_SIZE: nat

  datatype Header = Header(signature: seq<nat>, version: nat, keySize: nat, dataSize: nat, leafSlots: nat, innerSlots: nat,
                           duplicates: bool, itemcount: int)

  /** A stream: its header, and the nodes that can be read whole, unless it ends before. */
  datatype DumpFile = DumpFile(header: Option<Header>, nodes: seq<NodeImage>)

  /** `fill`, with the item count. */
  function FilledHeader(itemcount: int): Header {
    Header([0x2d787473, 0x65727462, 0x00000065], 0, KEY_TYPE_SIZE, DATA_TYPE_SIZE, LEAF_SLOT_MAX, INNER_SLOT_MAX,
           ALLOW_DUPLICATES, itemcount)
  }

  /** `same`: everything but the item count. */
  predicate SameHeader(a: Header, b: Header) {
    a.(itemcount := 0) == b.(itemcount := 0)
  }

  /** A header as this instantiation writes it, whatever the item count. */
  predicate OfThisKind(h: Header) {
    && h.signature == [0x2d787473, 0x65727462, 0x00000065] && h.version == 0
    && h.keySize == KEY_TYPE_SIZE && h.dataSize == DATA_TYPE_SIZE
    && h.leafSlots == LEAF_SLOT_MAX && h.innerSlots == INNER_SLOT_MAX && h.duplicates == ALLOW_DUPLICATES
  }

  lemma SameKind(h: Header)
    ensures SameHeader(FilledHeader(h.itemcount), h) <==> OfThisKind(h)
    ensures OfThisKind(FilledHeader(h.itemcount))
  {
  }

  function ImageOf(n: Node): NodeImage
    reads n
  {
    NodeImage(n.level, n.slotuse, n.slotkey, n.childid, n.slotdata, n.prevleaf, n.nextleaf)
  }

  ghost predicate LeafDepicted(m: NodeImage, items: seq<Item>) {
    && m.level == 0 && m.slotuse == |items| <= LEAF_SLOT_MAX
    && |m.slotkey| == |m.slotdata| == LEAF_SLOT_MAX
    && m.slotkey[..|items|] == KeysOf(items) && m.slotdata[..|items|] == DataOf(items)
  }

  ghost predicate InnerDepicted(m: NodeImage, level: nat, keys: seq<Key>) {
    && m.level == level > 0 && m.slotuse == |keys| <= INNER_SLOT_MAX
    && |m.slotkey| == INNER_SLOT_MAX && |m.childid| == INNER_SLOT_MAX + 1
    && m.slotkey[..|keys|] == keys
  }

  /** How many nodes a subtree has. */
  ghost function Size(t: Tree): nat
    decreases t, 0
  {
    if t.Leaf? then 1 else 1 + SizeAll(t.kids)
  }

  ghost function SizeAll(kids: seq<Tree>): nat
    decreases kids, 1
  {
    if kids == [] then 0 else Size(kids[0]) + SizeAll(kids[1..])
  }

  /** From `pos` on, the images are those of the subtree, parents first. */
  ghost predicate Depicted(images: seq<NodeImage>, pos: nat, t: Tree)
    decreases t, 0
  {
    && pos + Size(t) <= |images|
    && match t
       case Leaf(_, items) => LeafDepicted(images[pos], items)
       case Inner(_, level, keys, kids) =>
         |kids| == |keys| + 1 && InnerDepicted(images[pos], level, keys) && AllDepicted(images, pos + 1, kids)
  }

  ghost predicate AllDepicted(images: seq<NodeImage>, pos: nat, kids: seq<Tree>)
    decreases kids, 1
  {
    kids != [] ==> Depicted(images, pos, kids[0]) && AllDepicted(images, pos + Size(kids[0]), kids[1..])
  }

  /** The images written for a subtree in memory. */
  ghost function DumpOf(t: Tree): seq<NodeImage>
    reads Foot(t)
    decreases t, 0
  {
    [ImageOf(t.ref)] + if t.Leaf? then [] else DumpAll(t.kids)
  }

  ghost function DumpAll(kids: seq<Tree>): seq<NodeImage>
    reads FootAll(kids)
    decreases kids, 1
  {
    if kids == [] then [] else DumpOf(kids[0]) + DumpAll(kids[1..])
  }

  /** `dump_node`. */
  method DumpNode(n: Node, ghost t: Tree) returns (images: seq<NodeImage>)
    requires Holds(t) && n == t.ref
    ensures images == DumpOf(t)
    decreases t
  {
    hide Holds, DumpAll, AllHold, RefsOf;
    LeafOrInner(t);
    images := [ImageOf(n)];
    if n.level != 0 {
      InnerParts(t);
      Existing(t);
      var slot := 0;
      DumpNone();
      while slot <= n.slotuse
        invariant slot <= |t.kids| && Holds(t)
        invariant images == [ImageOf(n)] + DumpAll(t.kids[..slot])
      {
        KidLevel(t, slot);
        Existing(t);
        AllExisting(t.kids[..slot]);
        var part := DumpNode(n.childid[slot], t.kids[slot]);
        images := images + part;
        DumpStep(t.kids, slot);
        slot := slot + 1;
      }
      assert t.kids[..slot] == t.kids;
    }
  }

  lemma DumpNone()
    ensures DumpAll([]) == []
  {
  }

  lemma {:induction false} DumpConcat(a: seq<Tree>, b: seq<Tree>)
    ensures DumpAll(a + b) == DumpAll(a) + DumpAll(b)
  {
    if a == [] {
      assert a + b == b;
    } else {
      assert (a + b)[1..] == a[1..] + b;
      DumpConcat(a[1..], b);
    }
  }

  lemma {:induction false} DumpStep(kids: seq<Tree>, i: nat)
    requires i < |kids|
    ensures DumpAll(kids[..i + 1]) == DumpAll(kids[..i]) + DumpOf(kids[i])
  {
    assert kids[..i + 1] == kids[..i] + [kids[i]];
    DumpConcat(kids[..i], [kids[i]]);
    assert [kids[i]][1..] == [];
  }

  /** What is written depicts the tree. */
  lemma {:induction false} DumpDepicts(t: Tree, before: seq<NodeImage>, after: seq<NodeImage>)
    requires Holds(t)
    ensures |DumpOf(t)| == Size(t) && Depicted(before + DumpOf(t) + after, |before|, t)
    decreases t, 0
  {
    var images := before + DumpOf(t) + after;
    assert images[|before|] == ImageOf(t.ref);
    if t.Inner? {
      hide AllHold, DumpAll, AllDepicted, RefsOf;
      HoldsTop(t);
      DumpAllDepicts(t.kids, before + [ImageOf(t.ref)], after);
      DumpRegrouped(before, ImageOf(t.ref), DumpAll(t.kids), after);
    }
  }

  lemma DumpRegrouped(before: seq<NodeImage>, top: NodeImage, parts: seq<NodeImage>, after: seq<NodeImage>)
    ensures before + ([top] + parts) + after == (before + [top]) + parts + after
  {
  }

  lemma {:induction false} DumpAllDepicts(kids: seq<Tree>, before: seq<NodeImage>, after: seq<NodeImage>)
    requires AllHold(kids)
    ensures |DumpAll(kids)| == SizeAll(kids) && AllDepicted(before + DumpAll(kids) + after, |before|, kids)
    decreases kids, 1
  {
    if kids != [] {
      DumpDepicts(kids[0], before, DumpAll(kids[1..]) + after);
      DumpAllDepicts(kids[1..], before + DumpOf(kids[0]), after);
      assert before + DumpAll(kids) + after == before + DumpOf(kids[0]) + (DumpAll(kids[1..]) + after);
      assert before + DumpAll(kids) + after == (before + DumpOf(kids[0])) + DumpAll(kids[1..]) + after;
    }
  }

  /** The first leaf in the file stands at `f`. */
  ghost predicate FirstLeafAt(images: seq<NodeImage>, f: nat) {
    && f < |images| && images[f].level == 0
    && forall j | 0 <= j < f :: images[j].level != 0
  }

  /** What the pointers in a file must still say: nothing before the first leaf, nothing behind the last node. */
  ghost predicate LinksClean(images: seq<NodeImage>) {
    && images != [] && images[|images| - 1].nextleaf == null
    && exists f: nat | FirstLeafAt(images, f) :: images[f].prevleaf == null
  }

  /** The first leaf of a subtree comes after the inner nodes on the way. */
  lemma {:induction false} DumpFirst(t: Tree) returns (f: nat)
    requires Holds(t)
    ensures LeafRefs(t) != [] && FirstLeafAt(DumpOf(t), f) && DumpOf(t)[f] == ImageOf(LeafRefs(t)[0])
    decreases t
  {
    if t.Leaf? {
      f := 0;
    } else {
      hide Holds, DumpOf, DumpAll;
      InnerParts(t);
      KidLevel(t, 0);
      var g := DumpFirst(t.kids[0]);
      DumpOfInner(t);
      FirstLeafFollows(ImageOf(t.ref), DumpOf(t.kids[0]), DumpAll(t.kids[1..]), g);
      f := g + 1;
    }
  }

  lemma DumpOfInner(t: Tree)
    requires t.Inner? && t.kids != []
    ensures DumpOf(t) == [ImageOf(t.ref)] + (DumpOf(t.kids[0]) + DumpAll(t.kids[1..]))
    ensures DumpOf(t) == [ImageOf(t.ref)] + DumpAll(t.kids)
  {
  }

  lemma FirstLeafFollows(top: NodeImage, images: seq<NodeImage>, rest: seq<NodeImage>, g: nat)
    requires top.level != 0 && FirstLeafAt(images, g)
    ensures FirstLeafAt([top] + (images + rest), g + 1) && ([top] + (images + rest))[g + 1] == images[g]
  {
    var all := [top] + (images + rest);
    forall j | 0 <= j < g + 1 ensures all[j].level != 0 { if j > 0 { assert all[j] == images[j - 1]; } }
  }

  /** The last node written is the last leaf. */
  lemma {:induction false} DumpLast(t: Tree)
    requires Holds(t)
    ensures LeafRefs(t) != [] && DumpOf(t) != []
    ensures DumpOf(t)[|DumpOf(t)| - 1] == ImageOf(LeafRefs(t)[|LeafRefs(t)| - 1])
    decreases t
  {
    if t.Inner? {
      hide Holds, DumpOf, DumpAll, LeafRefs, LeafRefsAll, RefsOf;
      InnerParts(t);
      var n := |t.kids| - 1;
      KidLevel(t, n);
      DumpLast(t.kids[n]);
      DumpOfInner(t);
      DumpStep(t.kids, n);
      assert t.kids[..n + 1] == t.kids;
      LastLeaves(t, n);
    }
  }

  lemma {:induction false} LastLeaves(t: Tree, n: nat)
    requires t.Inner? && |t.kids| == n + 1
    ensures LeafRefs(t) == LeafRefsAll(t.kids[..n]) + LeafRefs(t.kids[n])
  {
    hide LeafRefs, LeafRefsAll, InnerCountAll, FootAll, AllApart;
    ShapeAround(t.kids, n, n + 1);
    assert t.kids[n..n + 1] == [t.kids[n]] && t.kids[n + 1..] == [];
    ShapeOne(t.kids[n]);
    LeafRefsTop(t);
    NoLeaves();
  }

  lemma NoLeaves()
    ensures LeafRefsAll([]) == []
  {
  }

  /** What a file says about the tree it was written from. */
  ghost predicate Recorded(file: DumpFile, shape: Option<Tree>) {
    && file.header.Some? && OfThisKind(file.header.value)
    && file.header.value.itemcount == |Pairs(shape)| && ValidRoot(shape)
    && (!ALLOW_DUPLICATES ==> UniqueKeys(Pairs(shape)))
    && (shape.Some? ==>
          Contents(shape.value) != [] && Depicted(file.nodes, 0, shape.value) && |file.nodes| == Size(shape.value)
          && LinksClean(file.nodes))
  }

  /** `dump`. */
  method Dump(tree: BTree) returns (file: DumpFile)
    requires tree.Valid()
    ensures Recorded(file, tree.shape) && (tree.shape.None? ==> file.nodes == [])
    ensures var h := file.header.value;
      && h.signature == [0x2d787473, 0x65727462, 0x00000065] && h.version == 0
      && h.keySize == KEY_TYPE_SIZE && h.dataSize == DATA_TYPE_SIZE
      && h.leafSlots == LEAF_SLOT_MAX && h.innerSlots == INNER_SLOT_MAX && h.duplicates == ALLOW_DUPLICATES
      && h.itemcount == |tree.Items()|
  {
    hide Holds, UniqueKeys, LeafRefs, Depicted, DumpOf, Size, Contents, Valid;
    NodesExistingIn(tree);
    file := DumpFile(Some(FilledHeader(tree.itemcount)), []);
    if tree.root != null {
      ghost var t := tree.shape.value;
      Existing(t);
      var images := DumpNode(tree.root, t);
      DumpDepicts(t, [], []);
      assert [] + DumpOf(t) + [] == DumpOf(t);
      ghost var f := DumpFirst(t);
      DumpLast(t);
      CleanEnds(tree, t, f);
      ContentsSorted(t, 1);
      file := DumpFile(Some(FilledHeader(tree.itemcount)), images);
    }
  }

  lemma CleanEnds(tree: BTree, t: Tree, f: nat)
    requires tree.Linked(LeafRefs(t)) && LeafRefs(t) != [] && DumpOf(t) != []
    requires FirstLeafAt(DumpOf(t), f) && DumpOf(t)[f] == ImageOf(LeafRefs(t)[0])
    requires DumpOf(t)[|DumpOf(t)| - 1] == ImageOf(LeafRefs(t)[|LeafRefs(t)| - 1])
    ensures LinksClean(DumpOf(t))
  {
    assert DumpOf(t)[f].prevleaf == null;
  }

  // Reading it back; the stream may end before the whole image has been read

  /**
   * From the first node on, each one's last child is the next, and that of the
   * last is missing.
   */
  ghost predicate Torn(path: seq<Node>)
    reads NodesIn(path)`level, NodesIn(path)`slotuse, NodesIn(path)`childid
  {
    && path != []
    && (forall i | 0 <= i < |path| :: path[i].level > 0 && path[i].slotuse < |path[i].childid|)
    && (forall i | 0 <= i < |path| - 1 :: path[i].childid[path[i].slotuse] == path[i + 1])
    && path[|path| - 1].childid[path[|path| - 1].slotuse] == null
  }

  /** Where a last child is missing there is no tree. */
  lemma {:induction false} TornHoldsNothing(path: seq<Node>, t: Tree)
    requires Torn(path) && t.ref == path[0]
    ensures !Holds(t)
    decreases |path|
  {
    if Holds(t) {
      LeafOrInner(t);
      InnerParts(t);
      var last := t.kids[|t.keys|];
      assert path[0].childid[path[0].slotuse] == last.ref;
      if |path| > 1 {
        KidLevel(t, |t.keys|);
        TornHoldsNothing(path[1..], last);
      }
    }
  }

  lemma TornAbove(n: Node, path: seq<Node>)
    requires n.level > 0 && n.slotuse < |n.childid|
    requires if path == [] then n.childid[n.slotuse] == null else Torn(path) && n.childid[n.slotuse] == path[0]
    ensures Torn([n] + path)
  {
    var all := [n] + path;
    forall i | 0 <= i < |all| - 1 ensures all[i].slotuse < |all[i].childid| && all[i].childid[all[i].slotuse] == all[i + 1] {
      if i > 0 { assert all[i] == path[i - 1] && all[i + 1] == path[i]; }
    }
  }

  /** `restore_node`: nothing when the stream has ended, else a node, whole if all its images were there. */
  method RestoreNode(tree: BTree, images: seq<NodeImage>, pos: nat, ghost whole: seq<NodeImage>, ghost t: Tree,
                     ghost chain: seq<Node>, ghost f: nat)
    returns (n: Node?, next: nat, ghost u: Tree, ghost torn: seq<Node>)
    requires images <= whole
    requires pos < |images| ==>
      && Depicted(whole, pos, t) && OpenLinked(tree, chain)
      && FirstLeafAt(whole, f) && whole[f].prevleaf == null && (chain == [] <==> pos <= f)
    modifies tree`headleaf, tree`tailleaf, tree`leaves, tree`innernodes, NodesIn(chain)`nextleaf
    ensures n == null <==> pos >= |images|
    ensures n == null ==> unchanged(tree)
    ensures pos < |images| && pos + Size(t) <= |images| ==>
      && n == u.ref && Built(tree, t, u, chain)
      && next == pos + Size(t) && f < next
      && LeafRefs(u) != [] && LeafRefs(u)[|LeafRefs(u)| - 1].nextleaf == whole[next - 1].nextleaf
    ensures pos >= |images| || pos + Size(t) > |images| ==> next >= |images| && TornFrom(n, torn)
    decreases t, 1
  {
    hide OpenLinked, Built, Torn;
    u, torn := t, [];
    if pos >= |images| {
      return null, pos, t, [];
    }
    if images[pos].level == 0 {
      n, u := RestoreLeaf(tree, images[pos], t, chain);
      next := pos + 1;
    } else {
      n, next, u, torn := RestoreInner(tree, images, pos, whole, t, chain, f);
    }
  }

  /** What is left of a subtree that has been cut: nothing, or fresh nodes down to the first child missing. */
  twostate predicate TornFrom(new n: Node?, new path: seq<Node>)
    reads NodesIn(path)
  {
    if n == null then path == [] else fresh(NodesIn(path)) && Torn(path) && path != [] && path[0] == n
  }

  method RestoreLeaf(tree: BTree, image: NodeImage, ghost t: Tree, ghost chain: seq<Node>) returns (n: Node, ghost u: Tree)
    requires t.Leaf? && LeafDepicted(image, t.items) && OpenLinked(tree, chain)
    requires chain == [] ==> image.prevleaf == null
    modifies tree`headleaf, tree`tailleaf, tree`leaves, NodesIn(chain)`nextleaf
    ensures n == u.ref && Built(tree, t, u, chain)
    ensures LeafRefs(u) == [n] && n.nextleaf == image.nextleaf
  {
    hide OpenLinked, LeafHolds, LeafDepicted, LeafRefs, InnerCount;
    ChainExisting(chain);
    n := new Node.InitLeaf();
    tree.leaves := tree.leaves + 1;
    ReadLeaf(n, image, t.items);
    AppendLeaf(tree, n, chain);
    u := Leaf(n, t.items);
    LeafShape(u);
  }

  /** Everything in the node is overwritten by the image. */
  method ReadLeaf(n: Node, image: NodeImage, ghost items: seq<Item>)
    requires LeafDepicted(image, items)
    modifies n
    ensures LeafHolds(n, items) && n.prevleaf == image.prevleaf && n.nextleaf == image.nextleaf
  {
    n.level, n.slotuse, n.slotkey, n.slotdata := image.level, image.slotuse, image.slotkey, image.slotdata;
    n.prevleaf, n.nextleaf := image.prevleaf, image.nextleaf;
  }

  lemma {:induction false} KidDepicted(images: seq<NodeImage>, pos: nat, kids: seq<Tree>, i: nat)
    requires AllDepicted(images, pos, kids) && i < |kids|
    ensures Depicted(images, pos + SizeAll(kids[..i]), kids[i])
    ensures SizeAll(kids[..i + 1]) == SizeAll(kids[..i]) + Size(kids[i]) && Size(kids[i]) > 0
    decreases i
  {
    if i > 0 {
      KidDepicted(images, pos + Size(kids[0]), kids[1..], i - 1);
      assert kids[..i][1..] == kids[1..][..i - 1] && kids[..i + 1][1..] == kids[1..][..i];
      assert kids[..i][0] == kids[0] && kids[..i + 1][0] == kids[0];
    } else {
      assert kids[..1][1..] == [];
    }
  }

  /** The images of the first `slot` children were all there. */
  ghost predicate InTime(images: seq<NodeImage>, start: nat, kids: seq<Tree>, slot: nat)
    requires slot <= |kids|
  {
    start + SizeAll(kids[..slot]) <= |images|
  }

  method RestoreInner(tree: BTree, images: seq<NodeImage>, pos: nat, ghost whole: seq<NodeImage>, ghost t: Tree,
                      ghost chain: seq<Node>, ghost f: nat)
    returns (n: Node, next: nat, ghost u: Tree, ghost torn: seq<Node>)
    requires images <= whole && pos < |images| && t.Inner? && Depicted(whole, pos, t) && OpenLinked(tree, chain)
    requires FirstLeafAt(whole, f) && whole[f].prevleaf == null && (chain == [] <==> pos <= f)
    modifies tree`headleaf, tree`tailleaf, tree`leaves, tree`innernodes, NodesIn(chain)`nextleaf
    ensures pos + Size(t) <= |images| ==>
      && n == u.ref && Built(tree, t, u, chain)
      && next == pos + Size(t) && f < next
      && LeafRefs(u) != [] && LeafRefs(u)[|LeafRefs(u)| - 1].nextleaf == whole[next - 1].nextleaf
    ensures pos + Size(t) > |images| ==> next >= |images| && TornFrom(n, torn)
    decreases t, 0
  {
    hide Holds, OpenLinked, SameTree, AllApart, Apart, AllHold, Foot, FootAll, LeafRefs, LeafRefsAll, InnerCount, InnerCountAll, KidsBuilt, RefsOf,
      Size, SizeAll, Depicted, AllDepicted, FirstLeafAt, Torn;
    DepictedTop(whole, pos, t);
    NotFirst(whole, pos, t, f);
    n := ReadInner(tree, images[pos], t, chain);
    next := pos + 1;
    ghost var us: seq<Tree> := [];
    torn := [];
    SizeNone();
    assert t.kids[..0] == [];
    var slot := 0;
    while slot <= n.slotuse
      invariant slot <= |t.kids| && n.slotuse == |t.keys|
      invariant |n.slotkey| == INNER_SLOT_MAX && |n.childid| == INNER_SLOT_MAX + 1
      invariant n.level == t.level && n.slotkey[..|t.keys|] == t.keys
      invariant slot == 0 ==> InTime(images, pos + 1, t.kids, slot)
      invariant InTime(images, pos + 1, t.kids, slot) ==>
        && |us| == slot && KidsBuilt(tree, n, t.kids, us, chain) && fresh(FootAll(us))
        && tree.leaves == old(tree.leaves) + |LeafRefsAll(us)|
        && tree.innernodes == old(tree.innernodes) + 1 + InnerCountAll(us)
        && next == pos + 1 + SizeAll(t.kids[..slot])
        && (chain + LeafRefsAll(us) == [] <==> next <= f)
        && (slot > 0 ==> LeafRefsAll(us) != [] && LeafRefsAll(us)[|LeafRefsAll(us)| - 1].nextleaf == whole[next - 1].nextleaf)
      invariant !InTime(images, pos + 1, t.kids, slot) ==>
        next >= |images| && slot > 0 && TornFrom(n.childid[slot - 1], torn) && n !in torn
    {
      AllLeavesInside(us);
      ghost var more;
      more, torn, next := RestoreChild(tree, n, slot, images, next, whole, t, us, chain, pos + 1, f);
      if InTime(images, pos + 1, t.kids, slot + 1) { AllExisting(more); }
      forall m | m in torn && !InTime(images, pos + 1, t.kids, slot + 1) ensures m != n { assert m in NodesIn(torn); }
      forall m | m in FootAll(more) && InTime(images, pos + 1, t.kids, slot + 1) ensures fresh(m) {
        if m !in FootAll(us) { assert m in FootAll(more) - FootAll(us); }
      }
      us := more;
      slot := slot + 1;
    }
    assert t.kids[..slot] == t.kids;
    u := Inner(n, t.level, t.keys, us);
    if pos + Size(t) <= |images| {
      KidsComplete(tree, n, t, us, chain);
    } else {
      TornAbove(n, torn);
      forall m | m in NodesIn([n] + torn) ensures fresh(m) { if m != n { assert m in NodesIn(torn); } }
      torn := [n] + torn;
    }
  }

  /** A new inner node, overwritten by the image; its children are still to come. */
  method ReadInner(tree: BTree, image: NodeImage, ghost t: Tree, ghost chain: seq<Node>) returns (n: Node)
    requires t.Inner? && InnerDepicted(image, t.level, t.keys) && OpenLinked(tree, chain)
    modifies tree`innernodes
    ensures fresh(n) && tree.innernodes == old(tree.innernodes) + 1 && KidsBuilt(tree, n, t.kids, [], chain)
    ensures n.level == t.level && n.slotuse == |t.keys| <= INNER_SLOT_MAX
    ensures |n.slotkey| == INNER_SLOT_MAX && |n.childid| == INNER_SLOT_MAX + 1 && n.slotkey[..|t.keys|] == t.keys
    ensures FootAll([]) == {} && LeafRefsAll([]) == [] && InnerCountAll([]) == 0
  {
    hide OpenLinked, KidsBuilt;
    ChainExisting(chain);
    n := new Node.InitInner(0);
    tree.innernodes := tree.innernodes + 1;
    n.level, n.slotuse, n.slotkey, n.childid := image.level, image.slotuse, image.slotkey, image.childid;
    NothingBuilt(tree, n, t.kids, chain);
  }

  lemma DepictedTop(images: seq<NodeImage>, pos: nat, t: Tree)
    requires t.Inner? && Depicted(images, pos, t)
    ensures |t.kids| == |t.keys| + 1 && pos < |images| && InnerDepicted(images[pos], t.level, t.keys)
    ensures AllDepicted(images, pos + 1, t.kids) && Size(t) == 1 + SizeAll(t.kids) && t.level > 0
  {
  }

  lemma NotFirst(images: seq<NodeImage>, pos: nat, t: Tree, f: nat)
    requires t.Inner? && Depicted(images, pos, t) && FirstLeafAt(images, f)
    ensures pos != f < |images|
  {
  }

  lemma SizeNone()
    ensures SizeAll([]) == 0
  {
  }

  /** One turn of the loop over the children. */
  method RestoreChild(tree: BTree, n: Node, slot: nat, images: seq<NodeImage>, pos: nat, ghost whole: seq<NodeImage>,
                      ghost t: Tree, ghost us: seq<Tree>, ghost chain: seq<Node>, ghost start: nat, ghost f: nat)
    returns (ghost more: seq<Tree>, ghost torn: seq<Node>, next: nat)
    requires images <= whole && t.Inner? && slot < |t.kids| <= |n.childid| == INNER_SLOT_MAX + 1 && AllDepicted(whole, start, t.kids)
    requires FirstLeafAt(whole, f) && whole[f].prevleaf == null
    requires InTime(images, start, t.kids, slot) ==>
      && slot == |us| && pos == start + SizeAll(t.kids[..slot])
      && KidsBuilt(tree, n, t.kids, us, chain) && (chain + LeafRefsAll(us) == [] <==> pos <= f)
    requires !InTime(images, start, t.kids, slot) ==> pos >= |images|
    modifies tree`headleaf, tree`tailleaf, tree`leaves, tree`innernodes, n`childid
    modifies (if InTime(images, start, t.kids, slot) then NodesIn(chain + LeafRefsAll(us)) else {})`nextleaf
    ensures |n.childid| == INNER_SLOT_MAX + 1
    ensures InTime(images, start, t.kids, slot + 1) ==>
      && InTime(images, start, t.kids, slot)
      && |more| == slot + 1 && KidsBuilt(tree, n, t.kids, more, chain)
      && fresh(FootAll(more) - FootAll(us))
      && tree.leaves - |LeafRefsAll(more)| == old(tree.leaves) - |LeafRefsAll(us)|
      && tree.innernodes - InnerCountAll(more) == old(tree.innernodes) - InnerCountAll(us)
      && next == start + SizeAll(t.kids[..slot + 1]) && f < next
      && LeafRefsAll(more) != [] && LeafRefsAll(more)[|LeafRefsAll(more)| - 1].nextleaf == whole[next - 1].nextleaf
    ensures !InTime(images, start, t.kids, slot + 1) ==> next >= |images| && TornFrom(n.childid[slot], torn)
    decreases t, 0, 0
  {
    hide Holds, OpenLinked, SameTree, AllApart, Apart, AllHold, Foot, FootAll, LeafRefs, LeafRefsAll, InnerCount, InnerCountAll, RefsOf,
      Size, SizeAll, Depicted, AllDepicted, FirstLeafAt, Torn;
    KidDepicted(whole, start, t.kids, slot);
    var child;
    ghost var v;
    ghost var here := if InTime(images, start, t.kids, slot) then chain + LeafRefsAll(us) else [];
    if InTime(images, start, t.kids, slot) { AllExisting(us); }
    child, next, v, torn := RestoreNode(tree, images, pos, whole, t.kids[slot], here, f);
    if InTime(images, start, t.kids, slot + 1) {
      Existing(v);
      ChainExisting((chain + LeafRefsAll(us)) + LeafRefs(v));
    }
    n.childid := n.childid[slot := child];
    more := us;
    if InTime(images, start, t.kids, slot + 1) {
      KidsBuiltStep(tree, n, t.kids, us, v, chain);
      more := us + [v];
    }
  }

  /** `clear`: the nodes are given back. */
  method Clear(tree: BTree)
    requires tree.Valid()
    modifies tree
    ensures tree.Valid() && tree.Items() == [] && tree.shape == None
    ensures tree.root == null && tree.headleaf == null && tree.tailleaf == null
    ensures tree.itemcount == tree.leaves == tree.innernodes == 0
  {
    hide Holds, Contents, Valid, Apart;
    if tree.root != null {
      tree.root, tree.headleaf, tree.tailleaf := null, null, null;
      tree.itemcount, tree.leaves, tree.innernodes := 0, 0, 0;
      tree.shape := None;
    }
  }

  /** What a stream still has of a file that was written for this instantiation. */
  ghost predicate FrontOf(file: DumpFile, whole: DumpFile, shape: Option<Tree>) {
    file.header == whole.header && file.nodes <= whole.nodes && Recorded(whole, shape)
  }

  predicate Accepted(file: DumpFile) {
    file.header.Some? && OfThisKind(file.header.value)
  }

  lemma WholeLinked(tree: BTree, u: Tree)
    requires OpenLinked(tree, [] + LeafRefs(u)) && LeafRefs(u) != [] && LeafRefs(u)[|LeafRefs(u)| - 1].nextleaf == null
    ensures tree.Linked(LeafRefs(u))
  {
    hide OpenLinked, BTree.Linked, LeafRefs;
    assert [] + LeafRefs(u) == LeafRefs(u);
    ClosedChain(tree, LeafRefs(u));
  }

  lemma EmptyIsValid(tree: BTree)
    requires tree.shape == None && tree.root == null && tree.headleaf == null && tree.tailleaf == null
    requires tree.itemcount == tree.leaves == tree.innernodes == 0
    ensures tree.Valid() && tree.Items() == []
  {
  }

  /**
   * `restore`: refused when the header is cut or any of its properties is not
   * that of this instantiation, and then nothing changes, or when there are
   * pairs but no node. Otherwise an equal
   * tree, whatever pointers the images held, if and only if they are all
   * there; if some are missing, so is a child, and there is no tree at all.
   */
  method Restore(tree: BTree, file: DumpFile, ghost whole: DumpFile, ghost shape: Option<Tree>) returns (done: bool)
    requires tree.Valid()
    requires Accepted(file) ==> FrontOf(file, whole, shape)
    modifies tree
    ensures done <==> Accepted(file) && (shape.Some? ==> file.nodes != [])
    ensures file.header.None? ==> !done && unchanged(tree)
    ensures file.header.Some? ==>
      var h := file.header.value;
      var same :=
        && h.signature == [0x2d787473, 0x65727462, 0x00000065] && h.version == 0
        && h.keySize == KEY_TYPE_SIZE && h.dataSize == DATA_TYPE_SIZE
        && h.leafSlots == LEAF_SLOT_MAX && h.innerSlots == INNER_SLOT_MAX && h.duplicates == ALLOW_DUPLICATES;
      && (!same ==> !done && unchanged(tree))
      && (same && (shape.Some? ==> file.nodes != []) ==> done)
    ensures !done ==> tree.Valid() && tree.shape == if Accepted(file) then None else old(tree.shape)
    ensures done && (shape.Some? ==> file.nodes == whole.nodes) ==>
      && tree.Valid() && fresh(tree.Nodes()) && tree.Items() == Pairs(shape)
      && (tree.shape.Some? <==> shape.Some?)
      && (shape.Some? ==> SameTree(shape.value, tree.shape.value))
    ensures done && shape.Some? && file.nodes != whole.nodes ==>
      tree.root != null && forall t: Tree | t.ref == tree.root :: !Holds(t)
  {
    hide Holds, BTree.Linked, SameTree, UniqueKeys, LeafRefs, InnerCount, Foot, Apart, OpenLinked, Valid, Contents, Depicted, BTree.Valid, Torn, Size, AllHold;
    done := false;
    if file.header.None? { return; }
    SameKind(file.header.value);
    if !SameHeader(FilledHeader(file.header.value.itemcount), file.header.value) { return; }
    Clear(tree);
    if file.header.value.itemcount > 0 {
      ghost var f: nat :| FirstLeafAt(whole.nodes, f) && whole.nodes[f].prevleaf == null;
      NoChain(tree);
      var n, next;
      ghost var u, torn;
      n, next, u, torn := RestoreNode(tree, file.nodes, 0, whole.nodes, shape.value, [], f);
      if |file.nodes| == |whole.nodes| {
        Existing(u);
        ChainExisting(LeafRefs(u));
        WholeLinked(tree, u);
      }
      tree.root := n;
      if n == null {
        EmptyIsValid(tree);
        return;
      }
      tree.itemcount := file.header.value.itemcount;
      if |file.nodes| == |whole.nodes| {
        tree.shape := Some(u);
        BuiltWhole(tree, shape.value, u);
      } else {
        forall t: Tree | t.ref == tree.root ensures !Holds(t) { TornHoldsNothing(torn, t); }
      }
    }
    done := true;
  }

  /** `dump` and then `restore`: the tree comes back in fresh nodes, even into itself. */
  method DumpedAndRestored(from: BTree, into: BTree)
    requires from.Valid() && into.Valid()
    modifies into
    ensures into.Valid() && fresh(into.Nodes()) && into.Items() == old(from.Items())
    ensures into.shape.Some? <==> old(from.shape).Some?
    ensures into.shape.Some? ==> SameTree(old(from.shape).value, into.shape.value)
    ensures from != into ==> from.Valid() && from.shape == old(from.shape)
  {
    hide BTree.Valid, SameTree, Recorded;
    NodesExistingIn(from);
    NodesExistingIn(into);
    ShapePairs(from);
    var file := Dump(from);
    RecordedWhole(file, from.shape);
    var done := Restore(into, file, file, from.shape);
  }

  lemma RecordedWhole(file: DumpFile, shape: Option<Tree>)
    requires Recorded(file, shape)
    ensures Accepted(file) && FrontOf(file, file, shape) && (shape.Some? ==> file.nodes != [])
  {
  }

  lemma ShapePairs(tree: BTree)
    requires tree.Valid()
    ensures tree.Items() == Pairs(tree.shape)
  {
  }
}
