/** The leaves as values: positions in them, and the position at which a pair is inserted. */
module BTreeLeaves {
  import opened BTreeNode
  import opened BTreeItems
  import opened BTreeTree
  import opened BTreeErase
  import opened BTreeInsert
  import opened BTreeShape
  import opened BTreeGrow
  import opened Options

  ghost function Leaves(t: Tree): seq<Tree>
    decreases t, 0
  {
    if t.Leaf? then [t] else LeavesAll(t.kids)
  }

  ghost function LeavesAll(kids: seq<Tree>): seq<Tree>
    decreases kids, 1
  {
    if kids == [] then [] else Leaves(kids[0]) + LeavesAll(kids[1..])
  }

  /** The leaves of the whole tree, none for the empty tree. */
  ghost function LeavesOf(root: Option<Tree>): seq<Tree> {
    if root.None? then [] else Leaves(root.value)
  }

  lemma {:induction false} LeavesConcat(a: seq<Tree>, b: seq<Tree>)
    ensures LeavesAll(a + b) == LeavesAll(a) + LeavesAll(b)
  {
    if a == [] {
      assert a + b == b;
    } else {
      assert (a + b)[1..] == a[1..] + b;
      LeavesConcat(a[1..], b);
    }
  }

  lemma {:induction false} LeavesAround(kids: seq<Tree>, s: nat)
    requires s < |kids|
    ensures LeavesAll(kids) == LeavesAll(kids[..s]) + Leaves(kids[s]) + LeavesAll(kids[s + 1..])
  {
    assert kids == kids[..s] + kids[s..] && kids[s..][1..] == kids[s + 1..];
    LeavesConcat(kids[..s], kids[s..]);
  }

  lemma LeavesOne(t: Tree)
    requires t.Leaf?
    ensures Leaves(t) == [t]
  {
  }

  lemma LeavesInner(t: Tree)
    requires t.Inner?
    ensures Leaves(t) == LeavesAll(t.kids)
  {
  }

  lemma {:induction false} LeavesOfOne(t: Tree)
    ensures LeavesAll([t]) == Leaves(t)
  {
    assert [t][1..] == [];
  }

  lemma {:induction false} LeavesOfTwo(x: Tree, y: Tree)
    ensures LeavesAll([x, y]) == Leaves(x) + Leaves(y)
  {
    assert [x, y] == [x] + [y];
    LeavesConcat([x], [y]);
    LeavesOfOne(x);
    LeavesOfOne(y);
  }

  /** The leaves hold the contents, and are the nodes of the leaf order. */
  lemma {:induction false} LeavesContents(t: Tree)
    ensures Flat(Leaves(t)) == Contents(t)
    ensures |Leaves(t)| == |LeafRefs(t)|
    ensures forall i | 0 <= i < |Leaves(t)| :: Leaves(t)[i].Leaf? && Leaves(t)[i].ref == LeafRefs(t)[i]
    decreases t, 0
  {
    if t.Leaf? { FlatOne(t); } else { LeavesAllContents(t.kids); }
  }

  lemma {:induction false} LeavesAllContents(kids: seq<Tree>)
    ensures Flat(LeavesAll(kids)) == Flat(kids)
    ensures |LeavesAll(kids)| == |LeafRefsAll(kids)|
    ensures forall i | 0 <= i < |LeavesAll(kids)| :: LeavesAll(kids)[i].Leaf? && LeavesAll(kids)[i].ref == LeafRefsAll(kids)[i]
    decreases kids, 1
  {
    if kids != [] {
      LeavesContents(kids[0]);
      LeavesAllContents(kids[1..]);
      FlatConcat(Leaves(kids[0]), LeavesAll(kids[1..]));
    }
  }

  /** Slot `slot` of leaf `i` is position `p`; behind the last slot only in the last leaf. */
  ghost predicate IsAt(leaves: seq<Tree>, i: nat, slot: nat, p: nat) {
    && i < |leaves| && leaves[i].Leaf? && slot <= |leaves[i].items|
    && p == |Flat(leaves[..i])| + slot
    && (slot == |leaves[i].items| ==> i + 1 == |leaves|)
  }

  /** Node and slot stand for position `p`. */
  ghost predicate Located(leaves: seq<Tree>, node: Node?, slot: nat, p: nat) {
    if leaves == [] then node == null && slot == 0 && p == 0
    else exists i | 0 <= i < |leaves| :: IsAt(leaves, i, slot, p) && node == leaves[i].ref
  }

  // The position of an insertion

  /** Leaf `i` is the node, and its slot holds the pair at position `p`. */
  ghost predicate PlaceIn(leaves: seq<Tree>, i: nat, node: Node, slot: nat, p: nat) {
    && i < |leaves| && leaves[i].Leaf? && leaves[i].ref == node && slot < |leaves[i].items|
    && p == |Flat(leaves[..i])| + slot
  }

  /** `all` is `s` with the pair put at `p`, or `s` as it was with the key at `p`. */
  ghost predicate PutThere(all: seq<Item>, s: seq<Item>, p: nat, x: Item, done: bool) {
    if done then p <= |s| && all == PutAt(s, p, x)
    else all == s && p < |s| && s[p].key == x.key
  }

  lemma PutSplit(all: seq<Item>, s: seq<Item>, p: nat, x: Item, done: bool)
    requires PutThere(all, s, p, x, done)
    ensures done ==> p <= |s| && all == PutAt(s, p, x)
    ensures !done ==> all == s && p < |s| && s[p].key == x.key
  {
  }

  lemma {:induction false} PlaceBetween(pre: seq<Tree>, mid: seq<Tree>, post: seq<Tree>, i: nat, node: Node, slot: nat, p: nat)
    requires PlaceIn(mid, i, node, slot, p)
    ensures PlaceIn(pre + mid + post, |pre| + i, node, slot, |Flat(pre)| + p)
  {
    assert (pre + mid + post)[..|pre| + i] == pre + mid[..i];
    FlatConcat(pre, mid[..i]);
  }

  lemma {:induction false} PutBetween(a: seq<Item>, all: seq<Item>, s: seq<Item>, b: seq<Item>, p: nat, x: Item, done: bool)
    requires PutThere(all, s, p, x, done)
    ensures PutThere(a + all + b, a + s + b, |a| + p, x, done)
  {
    if done {
      PutInFront(s, b, p, x);
      PutBehind(a, s + b, p, x);
      assert a + all + b == a + (all + b) && a + s + b == a + (s + b);
    }
  }

  /** The leaves below the node or the two nodes that take the place of an inner node. */
  lemma {:induction false} LeavesAfter(t: Tree, few: nat, x: Item, spare: seq<Node>, s: nat)
    requires t.Inner? && Valid(t, few) && ShapeOk(t) && |spare| > t.Level()
    requires s == FindLower(t.keys, x.key) && s < |t.kids|
    ensures LeavesAll(After(InsertNode(t, x, spare))) ==
            LeavesAll(t.kids[..s]) + LeavesAll(After(InsertNode(t.kids[s], x, spare))) + LeavesAll(t.kids[s + 1..])
  {
    hide LeavesAll, Valid, FindLower, InsertNode, SplitInner, CutPoint, ShapeOk;
    Bounds(t, few);
    InsertNodeStep(t, x, spare, s);
    var rc, r := InsertNode(t.kids[s], x, spare), InsertNode(t, x, spare);
    var kids := KidsAfter(t, s, rc);
    LeavesConcat(t.kids[..s] + After(rc), t.kids[s + 1..]);
    LeavesConcat(t.kids[..s], After(rc));
    if r.split.Some? {
      SplitInnerIsCut(t, s, rc.node, rc.split.value, spare[t.level]);
      var k := CutPoint(|t.keys|, s) + 1;
      assert kids == kids[..k] + kids[k..];
      LeavesConcat(kids[..k], kids[k..]);
      LeavesOfTwo(r.node, r.split.value.sibling);
      LeavesInner(r.node);
      LeavesInner(r.split.value.sibling);
    } else {
      LeavesOfOne(r.node);
      LeavesInner(r.node);
    }
  }

  lemma InsertNodeStep(t: Tree, x: Item, spare: seq<Node>, s: nat)
    requires t.Inner? && ShapeOk(t) && |spare| > t.Level() && |t.keys| <= INNER_SLOT_MAX
    requires s == FindLower(t.keys, x.key) && s < |t.kids|
    ensures |t.kids| == |t.keys| + 1 && ShapeOk(t.kids[s]) && t.kids[s].Level() + 1 == t.level
    ensures var rc, r := InsertNode(t.kids[s], x, spare), InsertNode(t, x, spare);
      && r.place == rc.place && r.slot == rc.slot && r.done == rc.done
      && (r.split.None? ==> r.node.Inner? && r.node.kids == KidsAfter(t, s, rc))
      && (r.split.Some? ==>
            && rc.split.Some? && |t.keys| == INNER_SLOT_MAX
            && (r.node, r.split.value) == SplitInner(t, s, rc.node, rc.split.value, spare[t.level])
            && PutChild(t, s, rc.node, rc.split.value).kids == KidsAfter(t, s, rc))
  {
    hide SplitInner;
    assert t.kids[s := InsertNode(t.kids[s], x, spare).node] == t.kids[..s] + [InsertNode(t.kids[s], x, spare).node] + t.kids[s + 1..];
  }

  lemma {:induction false} PlaceInLeaf(t: Tree, x: Item, spare: Node) returns (i: nat, p: nat)
    requires t.Leaf?
    ensures var r := InsertInLeaf(t, x, spare); var ls := LeavesAll(After(r));
      PlaceIn(ls, i, r.place, r.slot, p) && PutThere(Flat(ls), Contents(t), p, x, r.done)
  {
    hide FindLower, FindUpper, Flat, LeavesAll, Leaves, Contents, PutAt, PutItem, PlaceIn, PutThere, InsertInLeaf;
    LeafCases(t, x, spare);
    var r := InsertInLeaf(t, x, spare);
    LeafContents(t);
    LeavesOne(r.node);
    if r.split.None? {
      i, p := 0, r.slot;
      LeavesOfOne(r.node);
      OnlyLeaf(r.node, r.slot);
    } else {
      var y := r.split.value.sibling;
      LeavesOne(y);
      LeavesOfTwo(r.node, y);
      TwoLeaves(r.node, y, r.slot);
      p := HalfOfLeaf(t, x, spare);
      i := if FindLower(KeysOf(t.items), x.key) >= |t.items| / 2 then 1 else 0;
    }
    KeptOrPut(t.items, p, x, Flat(LeavesAll(After(r))), r.done);
  }

  lemma {:induction false} LeafCases(t: Tree, x: Item, spare: Node)
    requires t.Leaf?
    ensures var r := InsertInLeaf(t, x, spare);
      && r.node.Leaf? && (r.split.Some? ==> r.done && r.split.value.sibling.Leaf?)
      && (r.split.None? ==>
            && r.place == r.node.ref && r.slot < |r.node.items|
            && if r.done then r.slot <= |t.items| && r.node.items == PutAt(t.items, r.slot, x)
               else r.node == t && t.items[r.slot].key == x.key)
  {
    hide FindLower, FindUpper;
    PutItemSlot(t.items, x);
  }

  lemma {:induction false} HalfOfLeaf(t: Tree, x: Item, spare: Node) returns (p: nat)
    requires t.Leaf? && InsertInLeaf(t, x, spare).split.Some?
    ensures var r := InsertInLeaf(t, x, spare);
      && r.node.Leaf? && r.split.value.sibling.Leaf?
      && p <= |t.items| && r.node.items + r.split.value.sibling.items == PutAt(t.items, p, x)
      && if FindLower(KeysOf(t.items), x.key) >= |t.items| / 2 then
           && r.place == r.split.value.sibling.ref && r.slot < |r.split.value.sibling.items|
           && p == |r.node.items| + r.slot
         else r.place == r.node.ref && r.slot < |r.node.items| && p == r.slot
  {
    hide FindLower, FindUpper, PutAt, PutItem;
    var r := InsertInLeaf(t, x, spare);
    var a, b := t.items[..|t.items| / 2], t.items[|t.items| / 2..];
    assert t.items == a + b;
    if FindLower(KeysOf(t.items), x.key) >= |a| {
      PutItemSlot(b, x);
      p := |a| + r.slot;
      PutBehind(a, b, r.slot, x);
    } else {
      PutItemSlot(a, x);
      p := r.slot;
      PutInFront(a, b, r.slot, x);
    }
  }

  lemma KeptOrPut(items: seq<Item>, p: nat, x: Item, all: seq<Item>, done: bool)
    requires if done then p <= |items| && all == PutAt(items, p, x) else all == items && p < |items| && items[p].key == x.key
    ensures PutThere(all, items, p, x, done)
  {
  }

  lemma OnlyLeaf(t: Tree, slot: nat)
    requires t.Leaf?
    ensures Flat([t]) == t.items
    ensures slot < |t.items| ==> PlaceIn([t], 0, t.ref, slot, slot)
  {
    FlatOne(t);
    assert [t][..0] == [];
  }

  lemma {:induction false} TwoLeaves(x: Tree, y: Tree, slot: nat)
    requires x.Leaf? && y.Leaf?
    ensures Flat([x, y]) == x.items + y.items && [x] + [y] == [x, y]
    ensures slot < |x.items| ==> PlaceIn([x, y], 0, x.ref, slot, slot)
    ensures slot < |y.items| ==> PlaceIn([x, y], 1, y.ref, slot, |x.items| + slot)
  {
    FlatTwo(x, y);
    FlatOne(x);
    assert [x, y][..0] == [] && [x, y][..1] == [x];
  }

  lemma LeafContents(t: Tree)
    requires t.Leaf?
    ensures Contents(t) == t.items
  {
  }

  lemma PutItemSlot(items: seq<Item>, x: Item)
    ensures FindUpper(KeysOf(items), x.key) <= |items|
    ensures PutItem(items, x) == PutAt(items, FindUpper(KeysOf(items), x.key), x) && |PutItem(items, x)| == |items| + 1
  {
  }

  /** The slot handed back by the descent is the position of the insertion. */
  lemma {:induction false} InsertPlace(t: Tree, few: nat, x: Item, spare: seq<Node>) returns (i: nat, p: nat)
    requires Valid(t, few) && ShapeOk(t) && |spare| > t.Level()
    ensures var r := InsertNode(t, x, spare); var ls := LeavesAll(After(r));
      PlaceIn(ls, i, r.place, r.slot, p) && PutThere(Flat(ls), Contents(t), p, x, r.done)
    decreases t
  {
    hide Valid, FindLower, Flat, LeavesAll, PlaceIn, PutThere, ShapeOk, InsertInLeaf, InsertNode, After;
    if t.Leaf? {
      InsertNodeAtLeaf(t, x, spare);
      i, p := PlaceInLeaf(t, x, spare[0]);
    } else {
      Bounds(t, few);
      var s := FindLower(t.keys, x.key);
      KidAt(t, few, s);
      InsertNodeStep(t, x, spare, s);
      i, p := InsertPlace(t.kids[s], t.kids[s].MinSlots(), x, spare);
      i, p := PlaceStep(t, few, x, spare, s, i, p);
    }
  }

  lemma InsertNodeAtLeaf(t: Tree, x: Item, spare: seq<Node>)
    requires t.Leaf? && ShapeOk(t) && |spare| > t.Level()
    ensures InsertNode(t, x, spare) == InsertInLeaf(t, x, spare[0])
  {
  }

  lemma {:induction false} PlaceStep(t: Tree, few: nat, x: Item, spare: seq<Node>, s: nat, i: nat, p: nat) returns (i': nat, p': nat)
    requires t.Inner? && Valid(t, few) && ShapeOk(t) && |spare| > t.Level()
    requires s == FindLower(t.keys, x.key) && s < |t.kids| && ShapeOk(t.kids[s]) && t.kids[s].Level() + 1 == t.level
    requires var r := InsertNode(t.kids[s], x, spare); var ls := LeavesAll(After(r));
      PlaceIn(ls, i, r.place, r.slot, p) && PutThere(Flat(ls), Contents(t.kids[s]), p, x, r.done)
    ensures var r := InsertNode(t, x, spare); var ls := LeavesAll(After(r));
      PlaceIn(ls, i', r.place, r.slot, p') && PutThere(Flat(ls), Contents(t), p', x, r.done)
  {
    hide Valid, FindLower, Flat, LeavesAll, PlaceIn, PutThere, ShapeOk, InsertNode, After, Contents;
    Bounds(t, few);
    LeavesAfter(t, few, x, spare, s);
    InsertNodeStep(t, x, spare, s);
    var r := InsertNode(t.kids[s], x, spare);
    var a, m, b := LeavesAll(t.kids[..s]), LeavesAll(After(r)), LeavesAll(t.kids[s + 1..]);
    i', p' := |a| + i, |Flat(a)| + p;
    PlaceBetween(a, m, b, i, r.place, r.slot, p);
    PutBetween(Flat(a), Flat(m), Contents(t.kids[s]), Flat(b), p, x, r.done);
    FlatConcat(a + m, b);
    FlatConcat(a, m);
    LeavesAllContents(t.kids[..s]);
    LeavesAllContents(t.kids[s + 1..]);
    ContentsInner(t);
    FlatAt(t.kids, s);
  }

  /** And so it is in the whole tree. */
  lemma {:induction false} InsertLocated(root: Option<Tree>, first: Node, x: Item, spare: seq<Node>, r: Inserted, top: Node)
    returns (p: nat)
    requires ValidRoot(root) && |spare| > StartOf(root, first).Level() && ShapeOk(StartOf(root, first))
    requires r == InsertNode(StartOf(root, first), x, spare)
    ensures Located(LeavesOf(Some(GrowRoot(r, top))), r.place, r.slot, p)
    ensures PutThere(Contents(GrowRoot(r, top)), Pairs(root), p, x, r.done)
  {
    hide Valid, Flat, LeavesAll, Leaves, PutThere, ShapeOk, InsertNode, Contents, Pairs;
    StartShape(root, first);
    var i;
    i, p := InsertPlace(StartOf(root, first), if root.None? then 0 else 1, x, spare);
    var n := GrowRoot(r, top);
    LeavesContents(n);
    if r.split.Some? {
      LeavesInner(n);
    } else {
      LeavesOfOne(n);
    }
    LocatedAt(Leaves(n), i, r.place, r.slot, p);
  }

  lemma LocatedAt(leaves: seq<Tree>, i: nat, node: Node, slot: nat, p: nat)
    requires PlaceIn(leaves, i, node, slot, p)
    ensures Located(leaves, node, slot, p)
  {
    assert IsAt(leaves, i, slot, p);
  }
}
