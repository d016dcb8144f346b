/** The tree object in memory. */
module BTreeClass {
  import opened BTreeNode
  import opened BTreeItems
  import opened BTreeTree
  import opened BTreeBalance
  import opened BTreeErase
  import opened BTreeInsert
  import opened BTreeShape
  import opened BTreeMemory
  import opened BTreeRepair
  import opened BTreeChain
  import opened BTreeGrow
  import opened BTreeLeaves
  import opened Options

  /**
   * A parent in memory whose children `i` and `i + 1` have been merged: the
   * emptied right one is still listed.
   */
  ghost predicate MergePending(t: Tree, i: nat)
    reads Foot(t)`level, Foot(t)`slotuse, Foot(t)`slotkey, Foot(t)`childid, Foot(t)`slotdata
  {
    && t.Inner? && Apart(t) && |t.kids| == |t.keys| + 1 && i < |t.keys|
    && (t.kids[i].Leaf? <==> t.kids[i + 1].Leaf?)
    && (t.level == 1 <==> t.kids[i].Leaf?)
    && (MergeInside(t, i);
        && InnerHolds(t.ref, t.level, t.keys, RefsOf(t.kids))
        && AllHold(t.kids[..i]) && AllHold(t.kids[i + 2..])
        && Holds(MergePair(t.kids[i], t.keys[i], t.kids[i + 1]))
        && MergePair(t.kids[i], t.keys[i], t.kids[i + 1]).Use() > 0
        && t.kids[i + 1].ref.slotuse == 0
        && (t.kids[i + 1].ref.level == 0 <==> t.kids[i + 1].Leaf?))
  }

  lemma {:induction false} MergeInside(t: Tree, i: nat)
    requires t.Inner? && Apart(t) && |t.kids| == |t.keys| + 1 && i < |t.keys|
    requires t.kids[i].Leaf? <==> t.kids[i + 1].Leaf?
    ensures Foot(MergePair(t.kids[i], t.keys[i], t.kids[i + 1])) <= Foot(t)
    ensures t.kids[i + 1].ref in Foot(t)
    ensures FootAll(t.kids[..i]) <= Foot(t) && FootAll(t.kids[i + 2..]) <= Foot(t)
  {
    hide MergePair, Apart, AllApart, LeafRefs, LeafRefsAll, InnerCount, InnerCountAll, Foot, FootAll;
    PairFrame(t, i);
    MergePairShape(t.kids[i], t.keys[i], t.kids[i + 1]);
    ShapeAround(t.kids, i, i + 2);
    ShapeTwo(t.kids[i], t.kids[i + 1]);
    assert t.kids[i..i + 2] == [t.kids[i], t.kids[i + 1]];
    TopShape(t);
  }

  lemma {:induction false} MergeFrame(t: Tree, i: nat)
    requires t.Inner? && Apart(t) && |t.kids| == |t.keys| + 1 && i < |t.keys|
    requires t.kids[i].Leaf? <==> t.kids[i + 1].Leaf?
    ensures t.ref !in Foot(MergePair(t.kids[i], t.keys[i], t.kids[i + 1]))
    ensures t.ref !in FootAll(t.kids[..i]) && t.ref !in FootAll(t.kids[i + 2..])
  {
    PairFrame(t, i);
    MergePairShape(t.kids[i], t.keys[i], t.kids[i + 1]);
  }

  /** The parent after the gap has been closed. */
  lemma {:induction false} HoldsMerged(t: Tree, i: nat, n: Tree)
    requires t.Inner? && |t.kids| == |t.keys| + 1 && i < |t.keys|
    requires t.kids[i].Leaf? <==> t.kids[i + 1].Leaf?
    requires n == MergeAt(t, i)
    requires InnerHolds(t.ref, t.level, n.keys, RefsOf(t.kids)[..i + 1] + RefsOf(t.kids)[i + 2..])
    requires AllHold(t.kids[..i]) && Holds(n.kids[i]) && AllHold(t.kids[i + 2..])
    ensures Holds(n)
  {
    hide InnerHolds, Holds, MergePair;
    var z := n.kids[i];
    MergedRefs(t.kids, i, z);
    AllHoldAround(n.kids, i, i + 1);
    assert n.kids[..i] == t.kids[..i] && n.kids[i..i + 1] == [z] && n.kids[i + 1..] == t.kids[i + 2..];
    AllHoldTwo(z, z);
    HoldsTop(n);
  }

  lemma MergedRefs(kids: seq<Tree>, i: nat, z: Tree)
    requires i + 1 < |kids| && z.ref == kids[i].ref
    ensures RefsOf(kids[..i] + [z] + kids[i + 2..]) == RefsOf(kids)[..i + 1] + RefsOf(kids)[i + 2..]
  {
  }

  /** The nodes whose chain pointers an operation on `t` may write. */
  ghost function Links(t: Tree, pre: seq<Node>, post: seq<Node>): set<Node> {
    Foot(t) + NodesIn(pre) + NodesIn(post)
  }

  lemma {:induction false} LinksOfPart(t: Tree, i: nat, j: nat, pre: seq<Node>, post: seq<Node>)
    requires t.Inner? && i <= j <= |t.kids|
    ensures NodesIn(pre + LeafRefsAll(t.kids[..i])) <= Links(t, pre, post)
    ensures NodesIn(LeafRefsAll(t.kids[j..]) + post) <= Links(t, pre, post)
    ensures FootAll(t.kids[i..j]) <= Links(t, pre, post)
  {
    ShapeAround(t.kids, i, j);
    AllLeavesInside(t.kids[..i]);
    AllLeavesInside(t.kids[j..]);
  }

  lemma SameEnds(pre: seq<Node>, left: Node, right: Node, post: seq<Node>)
    ensures First(pre + [left, right] + post) == First(pre + [left] + post)
    ensures Last(pre + [left] + post) == if post == [] then left else Last(pre + [left, right] + post)
  {
  }

  /** `merge_inner` seen from the parent. */
  method MergeInnerChildren(left: Node, right: Node, parent: Node, parentslot: nat, ghost t: Tree)
    requires PairInMemory(t, parentslot, left, right, parent) && t.kids[parentslot].Inner?
    requires t.kids[parentslot].Use() + t.kids[parentslot + 1].Use() < INNER_SLOT_MAX
    modifies left`slotkey, left`childid, left`slotuse, right`slotuse
    ensures Holds(MergePair(t.kids[parentslot], t.keys[parentslot], t.kids[parentslot + 1])) && right.slotuse == 0
  {
    hide Holds, AllHold, Apart, RefsOf;
    ghost var x, m, y := t.kids[parentslot], t.keys[parentslot], t.kids[parentslot + 1];
    HoldsPair(t, parentslot);
    PairFrame(t, parentslot);
    HoldsTop(x);
    HoldsTop(y);
    AllExisting(x.kids);
    AllExisting(y.kids);
    SlotsAt(parent.slotkey, t.keys);
    RefsJoined(x.kids, y.kids);
    MergeInner(left, right, parent, parentslot, x.level, x.keys, RefsOf(x.kids), y.keys, RefsOf(y.kids));
    AllHoldConcat(x.kids, y.kids);
    HoldsTop(MergePair(x, m, y));
  }

  /** A pointer to the node of a cousin, NULL without one. */
  ghost predicate Points(c: Cousin, node: Node?, parent: Node?) {
    && c.parent == parent
    && (c.node.None? <==> node == null)
    && (c.node.Some? ==> c.node.value.ref == node)
  }

  /** The six-way choice, read off the nodes in memory. */
  method ChooseAction(left: Node?, right: Node?, leftparent: Node?, rightparent: Node?, parent: Node,
                      minslots: nat, ghost l: Cousin, ghost r: Cousin) returns (act: Action)
    requires Points(l, left, leftparent) && Points(r, right, rightparent)
    requires l.node.None? <==> l.parent == null
    requires r.node.None? <==> r.parent == null
    requires l.node.Some? || r.node.Some?
    requires l.node.Some? ==> left.slotuse == l.node.value.Use() && l.node.value.MinSlots() == minslots
    requires r.node.Some? ==> right.slotuse == r.node.value.Use() && r.node.value.MinSlots() == minslots
    ensures act == Decide(l, r, parent)
  {
    if (left == null || left.slotuse <= minslots) && (right == null || right.slotuse <= minslots) {
      act := if leftparent == parent then MergeLeft else MergeRight;
    } else if left != null && left.slotuse <= minslots && right != null && right.slotuse > minslots {
      act := if rightparent == parent then TakeRight else MergeLeft;
    } else if left != null && left.slotuse > minslots && right != null && right.slotuse <= minslots {
      act := if leftparent == parent then TakeLeft else MergeRight;
    } else if leftparent == rightparent {
      act := if left.slotuse <= right.slotuse then TakeRight else TakeLeft;
    } else {
      act := if leftparent == parent then TakeLeft else TakeRight;
    }
  }

  /** The slot that the removal of a key descends into. */
  ghost function DescentSlot(t: Tree, few: nat, key: Key): (s: nat)
    requires t.Inner? && Valid(t, few)
    ensures s < |t.kids| && s <= |t.keys|
  {
    Bounds(t, few);
    FindLower(t.keys, key)
  }

  /** The result of the child descended into. */
  ghost function ChildErased(t: Tree, few: nat, left: Cousin, right: Cousin, key: Key): (r: Erased)
    requires Descent(t, few, left, right) && t.Inner?
  {
    var s := DescentSlot(t, few, key);
    ChildDescent(t, few, left, right, s);
    EraseNode(t.kids[s], t.kids[s].MinSlots(), LeftOf(t, s, left), RightOf(t, s, right), key)
  }

  /** The parent with that result in place, before any repair. */
  ghost function Stepped(t: Tree, few: nat, left: Cousin, right: Cousin, key: Key): Tree
    requires Descent(t, few, left, right) && t.Inner? && ChildErased(t, few, left, right, key).Done?
  {
    var c := ChildErased(t, few, left, right, key);
    WithChild(t, DescentSlot(t, few, key), c.node, c.last)
  }

  /** The level above in terms of the level below. */
  lemma {:induction false} EraseNodeSteps(t: Tree, few: nat, left: Cousin, right: Cousin, key: Key)
    requires Descent(t, few, left, right) && t.Inner?
    ensures var s, c, r := DescentSlot(t, few, key), ChildErased(t, few, left, right, key), EraseNode(t, few, left, right, key);
      && (left.node.Some? ==> left.node.value.Inner? && 0 < |left.node.value.keys| < |left.node.value.kids|)
      && (right.node.Some? ==> right.node.value.Inner? && right.node.value.kids != [])
      && (r.Done? <==> c.Done?)
      && (c.Done? ==>
            var t', l', r' := Stepped(t, few, left, right, key), LeftOf(t, s, left), RightOf(t, s, right);
            && r.last == (if s < |t.keys| then None else c.last)
            && ErasedOk(t.kids[s], t.kids[s].MinSlots(), key, c) && c.node.ref == t.kids[s].ref
            && Apart(c.node) && Foot(c.node) <= Foot(t.kids[s])
            && (l'.node.None? <==> l'.parent == null) && (r'.node.None? <==> r'.parent == null)
            && (l'.node.Some? || r'.node.Some?)
            && (!c.node.IsUnderflow() ==> r.node == t')
            && (c.node.IsUnderflow() ==>
                  && Troubled(t', few, s, Decide(l', r', t.ref)) && RebalanceDefined(t', s, Decide(l', r', t.ref))
                  && r.node == Rebalance(t', s, Decide(l', r', t.ref))))
  {
    hide Valid, Apart, Foot, ValidBut, HasKey, RemoveFirst, HighKey, CousinOk, Decide, Rebalance, WithChild;
    var s, c := DescentSlot(t, few, key), ChildErased(t, few, left, right, key);
    ChildDescent(t, few, left, right, s);
    EraseNodeShape(t.kids[s], t.kids[s].MinSlots(), LeftOf(t, s, left), RightOf(t, s, right), key);
    if c.Done? {
      FinishOk(t, few, left, right, key, s, c.node, c.last);
    }
  }

  /** The parts of `EraseNodeSteps` that do not concern the repair. */
  lemma {:induction false} EraseNodeOutline(t: Tree, few: nat, left: Cousin, right: Cousin, key: Key)
    requires Descent(t, few, left, right) && t.Inner?
    ensures var s, c, r := DescentSlot(t, few, key), ChildErased(t, few, left, right, key), EraseNode(t, few, left, right, key);
      && |t.kids| == |t.keys| + 1
      && (r.Done? <==> c.Done?)
      && t.ref !in FootAll(t.kids[..s]) && t.ref !in FootAll(t.kids[s + 1..]) && t.ref in Foot(t)
      && (c.Done? ==>
            && r.last == (if s < |t.keys| then None else c.last)
            && c.node.ref == t.kids[s].ref && t.ref !in Foot(c.node))
  {
    hide Valid, CousinOk, Decide, Rebalance, WithChild, ErasedOk, ValidBut;
    Bounds(t, few);
    EraseNodeSteps(t, few, left, right, key);
    ShapeAround(t.kids, DescentSlot(t, few, key), DescentSlot(t, few, key) + 1);
    BesideFrame(t, DescentSlot(t, few, key));
  }

  /** What the repair of child `s` of `t` finds around it. */
  ghost predicate RepairContext(t: Tree, few: nat, s: nat, l: Cousin, r: Cousin)
    reads Foot(t)`level, Foot(t)`slotuse, Foot(t)`slotkey, Foot(t)`childid, Foot(t)`slotdata
  {
    && Holds(t) && Apart(t)
    && (l.node.None? <==> l.parent == null) && (r.node.None? <==> r.parent == null)
    && (l.node.Some? || r.node.Some?)
    && Troubled(t, few, s, Decide(l, r, t.ref))
    && (s > 0 ==> l == Cousin(Some(t.kids[s - 1]), t.ref))
    && (s + 1 < |t.kids| ==> r == Cousin(Some(t.kids[s + 1]), t.ref))
  }

  lemma {:induction false} RepairPair(t: Tree, few: nat, s: nat, i: nat)
    requires few > 0 && ValidBut(t, few, s) && s < |t.kids| && t.kids[s].IsUnderflow()
    requires Holds(t) && Apart(t) && i < |t.keys| && (s == i || s == i + 1)
    ensures PairInMemory(t, i, t.kids[i].ref, t.kids[i + 1].ref, t.ref)
    ensures t.level == 1 <==> t.kids[i].Leaf?
    ensures t.kids[if s == i then i + 1 else i].IsFew() ==>
              0 < t.kids[i].Use() + t.kids[i + 1].Use() < t.kids[i].MaxSlots()
    ensures {t.ref, t.kids[i].ref, t.kids[i + 1].ref} <= Foot(t)
  {
    hide Separated, KidsValid, Contents, Holds;
    ChildrenBeside(t, few, s, i);
    Bounds(t.kids[i], t.kids[i].MinSlots() - if s == i then 1 else 0);
    Bounds(t.kids[i + 1], t.kids[i + 1].MinSlots() - if s == i + 1 then 1 else 0);
    PairFrame(t, i);
  }

  class BTree {
    var root: Node?
    var headleaf: Node?
    var tailleaf: Node?
    var itemcount: int
    var leaves: int
    var innernodes: int
    ghost var shape: Option<Tree>

    /** The leaf chain from `headleaf` to `tailleaf`. */
    ghost predicate Linked(chain: seq<Node>)
      reads this`headleaf, this`tailleaf, NodesIn(chain)`prevleaf, NodesIn(chain)`nextleaf
    {
      ChainOk(chain) && headleaf == First(chain) && tailleaf == Last(chain)
    }

    /** `merge_leaves`: the slots and the chain. */
    method MergeLeaves(left: Node, right: Node, ghost a: seq<Item>, ghost b: seq<Item>,
                       ghost pre: seq<Node>, ghost post: seq<Node>)
      requires LeafHolds(left, a) && LeafHolds(right, b) && left != right
      requires |a| + |b| < LEAF_SLOT_MAX
      requires Linked(pre + [left, right] + post)
      modifies left`slotkey, left`slotdata, left`slotuse, right`slotuse
      modifies left`nextleaf, NodesIn(post)`prevleaf, this`tailleaf
      ensures LeafHolds(left, a + b) && right.slotuse == 0
      ensures Linked(pre + [left] + post)
    {
      hide LeafHolds, ChainOk;
      ChainExisting(pre + [left, right] + post);
      MergeLeafSlots(left, right, a, b);
      var wasTail := Unlink(left, right, pre, post);
      if wasTail { tailleaf := left; }
      SameEnds(pre, left, right, post);
    }

    /** `merge_leaves` seen from the parent. */
    method MergeLeafChildren(left: Node, right: Node, i: nat, ghost t: Tree, ghost pre: seq<Node>, ghost post: seq<Node>)
      requires t.Inner? && Apart(t) && i < |t.keys| && |t.kids| == |t.keys| + 1
      requires t.kids[i].Leaf? && t.kids[i + 1].Leaf? && left == t.kids[i].ref && right == t.kids[i + 1].ref
      requires LeafHolds(left, t.kids[i].items) && LeafHolds(right, t.kids[i + 1].items)
      requires t.kids[i].Use() + t.kids[i + 1].Use() < LEAF_SLOT_MAX
      requires Linked(pre + LeafRefs(t) + post)
      modifies left`slotkey, left`slotdata, left`slotuse, right`slotuse
      modifies Links(t, pre, post)`prevleaf, Links(t, pre, post)`nextleaf, this`tailleaf
      ensures LeafHolds(left, t.kids[i].items + t.kids[i + 1].items) && right.slotuse == 0
      ensures Linked(pre + LeafRefs(MergeAt(t, i)) + post)
    {
      hide Apart, LeafRefs, LeafHolds, Linked, MergeAt;
      PairFrame(t, i);
      MergeAtShape(t, i);
      LeafShape(t.kids[i]);
      LeafShape(t.kids[i + 1]);
      ghost var a, b := LeafRefsAll(t.kids[..i]), LeafRefsAll(t.kids[i + 2..]);
      assert pre + LeafRefs(t) + post == (pre + a) + [left, right] + (b + post);
      LinksOfPart(t, i, i + 2, pre, post);
      assert pre + LeafRefs(MergeAt(t, i)) + post == (pre + a) + [left] + (b + post);
      MergeLeaves(left, right, t.kids[i].items, t.kids[i + 1].items, pre + a, b + post);
    }

    /** One of the two merges, on children `i` and `i + 1` of their common parent. */
    method MergeChildren(left: Node, right: Node, parent: Node, i: nat,
                         ghost t: Tree, ghost pre: seq<Node>, ghost post: seq<Node>)
      requires PairInMemory(t, i, left, right, parent)
      requires t.level == 1 <==> t.kids[i].Leaf?
      requires 0 < t.kids[i].Use() + t.kids[i + 1].Use() < t.kids[i].MaxSlots()
      requires Linked(pre + LeafRefs(t) + post)
      modifies left`slotkey, left`slotdata, left`childid, left`slotuse, right`slotuse
      modifies Links(t, pre, post)`prevleaf, Links(t, pre, post)`nextleaf, this`tailleaf
      ensures MergePending(t, i)
      ensures Linked(pre + LeafRefs(MergeAt(t, i)) + post)
    {
      hide Holds, AllHold, Apart, RefsOf, LeafRefs, InnerHolds, LeafHolds, Linked, MergeAt;
      ghost var x, y := t.kids[i], t.kids[i + 1];
      HoldsPair(t, i);
      PairFrame(t, i);
      AllExisting(t.kids[..i]);
      AllExisting(t.kids[i + 2..]);
      LeafOrInner(x);
      LeafOrInner(y);
      if left.level == 0 {
        HoldsTop(x);
        HoldsTop(y);
        MergeLeafChildren(left, right, i, t, pre, post);
        HoldsTop(MergePair(x, t.keys[i], y));
      } else {
        MergeAtShape(t, i);
        ChainExisting(pre + LeafRefs(t) + post);
        MergeInnerChildren(left, right, parent, i, t);
      }
      MergeInside(t, i);
    }

    /** The repair of an underflowing child, chosen among its neighbours and done in their parent. */
    method Repair(curr: Node, left: Node?, right: Node?, leftparent: Node?, rightparent: Node?,
                  parent: Node, parentslot: nat, ghost t: Tree, ghost few: nat, ghost l: Cousin, ghost r: Cousin,
                  ghost pre: seq<Node>, ghost post: seq<Node>)
      returns (fixmerge: bool, ghost i: nat)
      requires RepairContext(t, few, parentslot, l, r)
      requires parent == t.ref && curr == t.kids[parentslot].ref
      requires Points(l, left, leftparent) && Points(r, right, rightparent)
      requires l.node.Some? ==> left.slotuse == l.node.value.Use() && l.node.value.MinSlots() == t.kids[parentslot].MinSlots()
      requires r.node.Some? ==> right.slotuse == r.node.value.Use() && r.node.value.MinSlots() == t.kids[parentslot].MinSlots()
      requires Linked(pre + LeafRefs(t) + post)
      modifies Foot(t)`slotkey, Foot(t)`slotdata, Foot(t)`childid, Foot(t)`slotuse
      modifies Links(t, pre, post)`prevleaf, Links(t, pre, post)`nextleaf, this`tailleaf
      ensures RebalanceDefined(t, parentslot, Decide(l, r, t.ref))
      ensures var n := Rebalance(t, parentslot, Decide(l, r, t.ref));
        && Linked(pre + LeafRefs(n) + post)
        && (!fixmerge ==> Holds(n) && (Decide(l, r, t.ref).TakeLeft? || Decide(l, r, t.ref).TakeRight?))
        && (fixmerge ==> MergePending(t, i) && n == MergeAt(t, i) && (parentslot == i || parentslot == i + 1))
    {
      hide Holds, Apart, ValidBut, Decide, LeafRefs, Linked, PairInMemory, MergePending, MergeAt, PutPair, ShiftLeft, ShiftRight, Foot;
      var minslots := if curr.level == 0 then MIN_LEAF_SLOTS else MIN_INNER_SLOTS;
      assert minslots == t.kids[parentslot].MinSlots() by { KidLevel(t, parentslot); }
      RebalanceReady(t, few, parentslot, Decide(l, r, t.ref));
      RebalanceShape(t, parentslot, Decide(l, r, t.ref));
      ChainExisting(pre + LeafRefs(t) + post);
      Existing(t);
      var act := ChooseAction(left, right, leftparent, rightparent, parent, minslots, l, r);
      i := if act.MergeLeft? || act.TakeLeft? then parentslot - 1 else parentslot;
      RepairPair(t, few, parentslot, i);
      fixmerge := act.MergeLeft? || act.MergeRight?;
      match act
      case MergeLeft => MergeChildren(left, curr, parent, parentslot - 1, t, pre, post);
      case MergeRight => MergeChildren(curr, right, parent, parentslot, t, pre, post);
      case TakeRight => TakeFromRight(curr, right, parent, parentslot, t);
      case TakeLeft => TakeFromLeft(left, curr, parent, parentslot - 1, t);
    }

    /** What the recursive erase may rely on in memory. */
    ghost predicate EraseContext(t: Tree, few: nat, gl: Cousin, gr: Cousin, pre: seq<Node>, post: seq<Node>)
      reads Foot(t)`level, Foot(t)`slotuse, Foot(t)`slotkey, Foot(t)`childid, Foot(t)`slotdata
      reads CousinFoot(gl)`level, CousinFoot(gl)`slotuse, CousinFoot(gl)`slotkey, CousinFoot(gl)`childid, CousinFoot(gl)`slotdata
      reads CousinFoot(gr)`level, CousinFoot(gr)`slotuse, CousinFoot(gr)`slotkey, CousinFoot(gr)`childid, CousinFoot(gr)`slotdata
      reads this`headleaf, this`tailleaf
      reads NodesIn(pre + LeafRefs(t) + post)`prevleaf, NodesIn(pre + LeafRefs(t) + post)`nextleaf
    {
      && Descent(t, few, gl, gr) && Holds(t)
      && CousinHeld(t, gl) && CousinHeld(t, gr)
      && Linked(pre + LeafRefs(t) + post)
    }

    /** Everything a call for child `s` needs follows from what holds for its parent. */
    lemma {:induction false} EraseChildReady(t: Tree, few: nat, gl: Cousin, gr: Cousin, key: Key,
                                             pre: seq<Node>, post: seq<Node>)
      requires t.Inner? && EraseContext(t, few, gl, gr, pre, post)
      ensures var s := DescentSlot(t, few, key);
        && (gl.node.Some? ==> gl.node.value.Inner? && 0 < |gl.node.value.keys| < |gl.node.value.kids|)
        && (gr.node.Some? ==> gr.node.value.Inner? && gr.node.value.kids != [])
        && Holds(t.kids[s]) && HoldsBeside(t, s)
        && Links(t.kids[s], pre + LeafRefsAll(t.kids[..s]), LeafRefsAll(t.kids[s + 1..]) + post) <= Links(t, pre, post)
        && BTreeTree.Valid(t.kids[s], t.kids[s].MinSlots()) && t.kids[s].MinSlots() > 0
        && t.kids[s].ref.level == t.kids[s].Level() && (t.kids[s].Leaf? <==> t.kids[s].Level() == 0)
        && EraseContext(t.kids[s], t.kids[s].MinSlots(), LeftOf(t, s, gl), RightOf(t, s, gr),
                        pre + LeafRefsAll(t.kids[..s]), LeafRefsAll(t.kids[s + 1..]) + post)
        && pre + LeafRefsAll(t.kids[..s]) + LeafRefs(t.kids[s]) + (LeafRefsAll(t.kids[s + 1..]) + post)
           == pre + LeafRefs(t) + post
    {
      hide Holds, Apart, BTreeTree.Valid, Foot, Linked, LeafRefs, CousinHeld, HoldsBeside;
      var s := DescentSlot(t, few, key);
      Bounds(t, few);
      ChildDescent(t, few, gl, gr, s);
      ChildCousinsHeld(t, few, s, gl, gr);
      HoldsAround(t, s);
      KidLevel(t, s);
      ShapeAround(t.kids, s, s + 1);
      assert t.kids[s..s + 1] == [t.kids[s]];
      ShapeOne(t.kids[s]);
      LinksOfPart(t, s, s + 1, pre, post);
      LeafRefsTop(t);
      Regrouped(pre, LeafRefsAll(t.kids[..s]), LeafRefs(t.kids[s]), LeafRefsAll(t.kids[s + 1..]), post);
    }

    /** The leaf order and the node counts around the child erased from. */
    lemma {:induction false} EraseChildDone(t: Tree, few: nat, gl: Cousin, gr: Cousin, key: Key,
                                            pre: seq<Node>, post: seq<Node>)
      requires Descent(t, few, gl, gr) && t.Inner? && ChildErased(t, few, gl, gr, key).Done?
      ensures var s, c, n := DescentSlot(t, few, key), ChildErased(t, few, gl, gr, key), Stepped(t, few, gl, gr, key);
        && pre + LeafRefsAll(t.kids[..s]) + LeafRefs(c.node) + (LeafRefsAll(t.kids[s + 1..]) + post)
           == pre + LeafRefs(n) + post
        && |LeafRefs(n)| - |LeafRefs(t)| == |LeafRefs(c.node)| - |LeafRefs(t.kids[s])|
        && InnerCount(n) - InnerCount(t) == InnerCount(c.node) - InnerCount(t.kids[s])
        && (t.kids[s].Leaf? ==> LeafRefs(c.node) == LeafRefs(t.kids[s]) && InnerCount(c.node) == InnerCount(t.kids[s]))
    {
      hide LeafRefs, InnerCount, BTreeTree.Valid, Foot;
      var s, c := DescentSlot(t, few, key), ChildErased(t, few, gl, gr, key);
      EraseNodeSteps(t, few, gl, gr, key);
      WithChildShape(t, s, c.node, c.last);
      Regrouped(pre, LeafRefsAll(t.kids[..s]), LeafRefs(c.node), LeafRefsAll(t.kids[s + 1..]), post);
      if t.kids[s].Leaf? {
        LeafShape(t.kids[s]);
        LeafShape(c.node);
      }
    }

    lemma EraseExisting(t: Tree, gl: Cousin, gr: Cousin, chain: seq<Node>)
      ensures forall n | n in Foot(t) :: allocated(n)
      ensures forall n | n in CousinFoot(gl) :: allocated(n)
      ensures forall n | n in CousinFoot(gr) :: allocated(n)
      ensures forall n | n in NodesIn(chain) :: allocated(n)
    {
      Existing(t);
      CousinsExisting(gl, gr);
      ChainExisting(chain);
    }

    /** The parent as it is before the repair. */
    lemma {:induction false} FinishParent(t: Tree, few: nat, gl: Cousin, gr: Cousin, key: Key,
                                          pre: seq<Node>, post: seq<Node>)
      requires t.Inner? && Descent(t, few, gl, gr) && ChildErased(t, few, gl, gr, key).Done?
      requires Holds(Stepped(t, few, gl, gr, key))
      ensures var s, c, t' := DescentSlot(t, few, key), ChildErased(t, few, gl, gr, key), Stepped(t, few, gl, gr, key);
        && t'.Inner? && t'.ref == t.ref && |t'.kids| == |t.kids| && t'.kids[s] == c.node && c.node.ref == t.kids[s].ref
        && t.ref.slotuse == |t'.keys| && |t'.kids| <= |t.ref.childid| && t.ref.childid[s] == c.node.ref
        && c.node.ref.slotuse == c.node.Use() && (c.node.ref.level == 0 <==> c.node.Leaf?)
        && Links(t', pre, post) <= Links(t, pre, post) && Foot(t') <= Foot(t) && t.ref in Foot(t) && Apart(t')
    {
      hide Holds, Apart, BTreeTree.Valid, EraseNode, AllHold, Decide, Rebalance, ErasedOk;
      var s, c, t' := DescentSlot(t, few, key), ChildErased(t, few, gl, gr, key), Stepped(t, few, gl, gr, key);
      EraseNodeSteps(t, few, gl, gr, key);
      WithChildShape(t, s, c.node, c.last);
      HoldsTop(t');
      SlotsAt(t.ref.childid, RefsOf(t'.kids));
      KidLevel(t', s);
    }

    /** What the repair needs, gathered from the removal in the child. */
    lemma {:induction false} FinishReady(t: Tree, few: nat, gl: Cousin, gr: Cousin, key: Key)
      requires t.Inner? && Descent(t, few, gl, gr) && ChildErased(t, few, gl, gr, key).Done?
      requires Holds(Stepped(t, few, gl, gr, key)) && CousinHeld(t, gl) && CousinHeld(t, gr)
      requires ChildErased(t, few, gl, gr, key).node.IsUnderflow()
      ensures (gl.node.Some? ==> gl.node.value.Inner? && 0 < |gl.node.value.keys| < |gl.node.value.kids|)
      ensures (gr.node.Some? ==> gr.node.value.Inner? && gr.node.value.kids != [])
      ensures var s, c, t' := DescentSlot(t, few, key), ChildErased(t, few, gl, gr, key), Stepped(t, few, gl, gr, key);
        var l, r, n := LeftOf(t, s, gl), RightOf(t, s, gr), EraseNode(t, few, gl, gr, key);
        && RepairContext(t', few, s, l, r)
        && RebalanceDefined(t', s, Decide(l, r, t'.ref))
        && n.Done? && n.node == Rebalance(t', s, Decide(l, r, t'.ref))
        && (l.node.Some? ==> l.node.value.ref.slotuse == l.node.value.Use() && l.node.value.MinSlots() == c.node.MinSlots())
        && (r.node.Some? ==> r.node.value.ref.slotuse == r.node.value.Use() && r.node.value.MinSlots() == c.node.MinSlots())
    {
      hide Holds, Apart, BTreeTree.Valid, EraseNode, AllHold, Decide, Rebalance, ErasedOk, ValidBut;
      var s, c, t' := DescentSlot(t, few, key), ChildErased(t, few, gl, gr, key), Stepped(t, few, gl, gr, key);
      EraseNodeSteps(t, few, gl, gr, key);
      FinishParent(t, few, gl, gr, key, [], []);
      FinishCousins(t, few, gl, gr, key);
    }

    lemma {:induction false} FinishLeft(t: Tree, few: nat, gl: Cousin, gr: Cousin, key: Key)
      requires t.Inner? && Descent(t, few, gl, gr) && ChildErased(t, few, gl, gr, key).Done?
      requires Holds(Stepped(t, few, gl, gr, key)) && CousinHeld(t, gl) && CousinHeld(t, gr)
      ensures (gl.node.Some? ==> gl.node.value.Inner? && 0 < |gl.node.value.keys| < |gl.node.value.kids|)
      ensures (gr.node.Some? ==> gr.node.value.Inner? && gr.node.value.kids != [])
      ensures var s, c := DescentSlot(t, few, key), ChildErased(t, few, gl, gr, key);
        var l := LeftOf(t, s, gl);
        && (l.node.Some? ==> l.node.value.ref.slotuse == l.node.value.Use() && l.node.value.MinSlots() == c.node.MinSlots())
    {
      hide Holds, Apart, BTreeTree.Valid, EraseNode, AllHold, Decide, Rebalance, ValidBut, HasKey, RemoveFirst, HighKey;
      var s, c, t' := DescentSlot(t, few, key), ChildErased(t, few, gl, gr, key), Stepped(t, few, gl, gr, key);
      EraseNodeSteps(t, few, gl, gr, key);
      ChildDescent(t, few, gl, gr, s);
      Bounds(t, few);
      Bounds(c.node, t.kids[s].MinSlots() - 1);
      Bounds(t.kids[s], t.kids[s].MinSlots());
      if s > 0 { KidLevel(t', s - 1); } else if gl.node.Some? { KidLevel(gl.node.value, |gl.node.value.keys| - 1); }
    }

    lemma {:induction false} FinishRight(t: Tree, few: nat, gl: Cousin, gr: Cousin, key: Key)
      requires t.Inner? && Descent(t, few, gl, gr) && ChildErased(t, few, gl, gr, key).Done?
      requires Holds(Stepped(t, few, gl, gr, key)) && CousinHeld(t, gl) && CousinHeld(t, gr)
      ensures (gl.node.Some? ==> gl.node.value.Inner? && 0 < |gl.node.value.keys| < |gl.node.value.kids|)
      ensures (gr.node.Some? ==> gr.node.value.Inner? && gr.node.value.kids != [])
      ensures var s, c := DescentSlot(t, few, key), ChildErased(t, few, gl, gr, key);
        var r := RightOf(t, s, gr);
        && (r.node.Some? ==> r.node.value.ref.slotuse == r.node.value.Use() && r.node.value.MinSlots() == c.node.MinSlots())
    {
      hide Holds, Apart, BTreeTree.Valid, EraseNode, AllHold, Decide, Rebalance, ValidBut, HasKey, RemoveFirst, HighKey;
      var s, c, t' := DescentSlot(t, few, key), ChildErased(t, few, gl, gr, key), Stepped(t, few, gl, gr, key);
      EraseNodeSteps(t, few, gl, gr, key);
      ChildDescent(t, few, gl, gr, s);
      Bounds(t, few);
      Bounds(c.node, t.kids[s].MinSlots() - 1);
      Bounds(t.kids[s], t.kids[s].MinSlots());
      if s < |t.keys| { KidLevel(t', s + 1); } else if gr.node.Some? { KidLevel(gr.node.value, 0); }
    }

    lemma {:induction false} FinishCousins(t: Tree, few: nat, gl: Cousin, gr: Cousin, key: Key)
      requires t.Inner? && Descent(t, few, gl, gr) && ChildErased(t, few, gl, gr, key).Done?
      requires Holds(Stepped(t, few, gl, gr, key)) && CousinHeld(t, gl) && CousinHeld(t, gr)
      ensures (gl.node.Some? ==> gl.node.value.Inner? && 0 < |gl.node.value.keys| < |gl.node.value.kids|)
      ensures (gr.node.Some? ==> gr.node.value.Inner? && gr.node.value.kids != [])
      ensures var s, c := DescentSlot(t, few, key), ChildErased(t, few, gl, gr, key);
        var l, r := LeftOf(t, s, gl), RightOf(t, s, gr);
        && (l.node.Some? ==> l.node.value.ref.slotuse == l.node.value.Use() && l.node.value.MinSlots() == c.node.MinSlots())
        && (r.node.Some? ==> r.node.value.ref.slotuse == r.node.value.Use() && r.node.value.MinSlots() == c.node.MinSlots())
    {
      hide *;
      FinishLeft(t, few, gl, gr, key);
      FinishRight(t, few, gl, gr, key);
    }

    lemma {:induction false} CountMerged(t: Tree, i: nat)
      requires MergePending(t, i)
      ensures t.kids[i + 1].ref.level == 0 ==> |LeafRefs(MergeAt(t, i))| == |LeafRefs(t)| - 1 && InnerCount(MergeAt(t, i)) == InnerCount(t)
      ensures t.kids[i + 1].ref.level != 0 ==> LeafRefs(MergeAt(t, i)) == LeafRefs(t) && InnerCount(MergeAt(t, i)) == InnerCount(t) - 1
    {
      MergeAtShape(t, i);
    }

    /** `free_node`: the node itself is left to its fate, the counters are kept. */
    method FreeNode(n: Node)
      modifies this`leaves, this`innernodes
      ensures leaves == old(leaves) - if n.level == 0 then 1 else 0
      ensures innernodes == old(innernodes) - if n.level == 0 then 0 else 1
    {
      if n.level == 0 { leaves := leaves - 1; } else { innernodes := innernodes - 1; }
    }

    /** The removal of the emptied child by its parent. */
    method RemoveMerged(inner: Node, slot: nat, ghost t: Tree, ghost i: nat)
      requires MergePending(t, i) && inner == t.ref && (slot == i || slot == i + 1)
      modifies inner`slotkey, inner`childid, inner`slotuse, this`leaves, this`innernodes
      ensures Holds(MergeAt(t, i))
      ensures leaves == old(leaves) - if old(t.kids[i + 1].ref.level) == 0 then 1 else 0
      ensures innernodes == old(innernodes) - if old(t.kids[i + 1].ref.level) == 0 then 0 else 1
    {
      hide Holds, AllHold, Apart, RefsOf, LeafHolds, MergePair;
      ghost var z := MergePair(t.kids[i], t.keys[i], t.kids[i + 1]);
      MergeInside(t, i);
      MergeFrame(t, i);
      Existing(z);
      AllExisting(t.kids[..i]);
      AllExisting(t.kids[i + 2..]);
      var s := CloseGap(inner, slot, t, i);
      RefreshMerged(inner, s - 1, t, i, z);
      HoldsMerged(t, i, MergeAt(t, i));
    }

    /** Just above the leaves the merged leaf gets its own last key as the separator. */
    method RefreshMerged(inner: Node, s: nat, ghost t: Tree, ghost i: nat, ghost z: Tree)
      requires t.Inner? && |t.kids| == |t.keys| + 1 && s == i < |t.keys| <= INNER_SLOT_MAX
      requires t.kids[i].Leaf? <==> t.kids[i + 1].Leaf?
      requires z == MergePair(t.kids[i], t.keys[i], t.kids[i + 1]) && Holds(z) && z.Use() > 0 && z.ref != inner
      requires t.level == 1 <==> z.Leaf?
      requires InnerHolds(inner, t.level, t.keys[..i] + t.keys[i + 1..], RefsOf(t.kids)[..i + 1] + RefsOf(t.kids)[i + 2..])
      modifies inner`slotkey
      ensures InnerHolds(inner, t.level, MergeAt(t, i).keys, RefsOf(t.kids)[..i + 1] + RefsOf(t.kids)[i + 2..])
    {
      hide LeafHolds, AllHold, RefsOf, MergePair;
      if inner.level == 1 {
        HoldsTop(z);
        RefreshSeparator(inner, s, t.keys[..i] + t.keys[i + 1..],
                         RefsOf(t.kids)[..i + 1] + RefsOf(t.kids)[i + 2..], z);
      }
    }

    /** Which of the two is empty is seen from `slotuse`; it is freed and unlisted. */
    method CloseGap(inner: Node, slot: nat, ghost t: Tree, ghost i: nat) returns (s: nat)
      requires MergePending(t, i) && inner == t.ref && (slot == i || slot == i + 1)
      modifies inner`slotkey, inner`childid, inner`slotuse, this`leaves, this`innernodes
      ensures s == i + 1
      ensures InnerHolds(inner, t.level, t.keys[..i] + t.keys[i + 1..], RefsOf(t.kids)[..i + 1] + RefsOf(t.kids)[i + 2..])
      ensures leaves == old(leaves) - if old(t.kids[i + 1].ref.level) == 0 then 1 else 0
      ensures innernodes == old(innernodes) - if old(t.kids[i + 1].ref.level) == 0 then 0 else 1
    {
      hide Holds, AllHold, Apart, RefsOf, MergePair;
      LeafOrInner(MergePair(t.kids[i], t.keys[i], t.kids[i + 1]));
      SlotsAt(inner.childid, RefsOf(t.kids));
      s := slot;
      if inner.childid[s].slotuse != 0 { s := s + 1; }
      FreeNode(inner.childid[s]);
      DropChild(inner, s, t.level, t.keys, RefsOf(t.kids));
    }

    /** The state after the removal in child `s`, with the parent not touched yet. */
    twostate predicate RemovedInChild(t: Tree, few: nat, gl: Cousin, gr: Cousin, key: Key,
                                      pre: seq<Node>, post: seq<Node>, found: bool, update: bool, lastkey: Key)
      requires Descent(t, few, gl, gr) && t.Inner?
      reads *
    {
      var s, c := DescentSlot(t, few, key), ChildErased(t, few, gl, gr, key);
      && (found <==> c.Done?)
      && HoldsBeside(t, s) && CousinHeld(t, gl) && CousinHeld(t, gr)
      && (!found ==> Holds(t.kids[s]) && Linked(pre + LeafRefs(t) + post) && leaves == old(leaves) && innernodes == old(innernodes))
      && (found ==>
            && Holds(c.node) && (update <==> c.last.Some?) && (update ==> lastkey == c.last.value)
            && Linked(pre + LeafRefs(Stepped(t, few, gl, gr, key)) + post)
            && leaves - |LeafRefs(Stepped(t, few, gl, gr, key))| == old(leaves) - |LeafRefs(t)|
            && innernodes - InnerCount(Stepped(t, few, gl, gr, key)) == old(innernodes) - InnerCount(t))
    }

    /** Removal in a child, be it a leaf or an inner node. */
    method EraseInChild(key: Key, curr: Node, left: Node?, right: Node?, leftparent: Node?, rightparent: Node?,
                        ghost t: Tree, ghost few: nat, ghost gl: Cousin, ghost gr: Cousin,
                        ghost pre: seq<Node>, ghost post: seq<Node>)
      returns (found: bool, update: bool, lastkey: Key)
      requires t.Inner? && EraseContext(t, few, gl, gr, pre, post)
      requires curr == t.kids[DescentSlot(t, few, key)].ref
      requires ChildPoints(t, DescentSlot(t, few, key), gl, gr, left, right, leftparent, rightparent)
      modifies Foot(t)`slotkey, Foot(t)`slotdata, Foot(t)`childid, Foot(t)`slotuse
      modifies Links(t, pre, post)`prevleaf, Links(t, pre, post)`nextleaf
      modifies this`tailleaf, this`leaves, this`innernodes
      ensures RemovedInChild(t, few, gl, gr, key, pre, post, found, update, lastkey)
      decreases t, 0
    {
      hide Holds, Apart, BTreeTree.Valid, Foot, Linked, LeafRefs, RemovedInChild;
      ghost var s := DescentSlot(t, few, key);
      EraseChildReady(t, few, gl, gr, key, pre, post);
      if curr.level == 0 {
        found, update, lastkey := EraseInLeafChild(key, curr, t, few, gl, gr, pre, post);
      } else {
        found, update, lastkey := EraseInInnerChild(key, curr, left, right, leftparent, rightparent,
                                                    t, few, gl, gr, pre, post);
      }
    }

    method EraseInLeafChild(key: Key, curr: Node, ghost t: Tree, ghost few: nat, ghost gl: Cousin, ghost gr: Cousin,
                            ghost pre: seq<Node>, ghost post: seq<Node>)
      returns (found: bool, update: bool, lastkey: Key)
      requires t.Inner? && EraseContext(t, few, gl, gr, pre, post)
      requires t.kids[DescentSlot(t, few, key)].Leaf? && curr == t.kids[DescentSlot(t, few, key)].ref
      modifies Foot(t)`slotkey, Foot(t)`slotdata, Foot(t)`slotuse
      ensures RemovedInChild(t, few, gl, gr, key, pre, post, found, update, lastkey)
    {
      hide Holds, Apart, BTreeTree.Valid, Foot, Linked, LeafRefs, LeafHolds, ChainOk, InnerHolds, InnerCount, ErasedOk, CousinOk, WithChild, FootAll, AllHold, RefsOf;
      ghost var s := DescentSlot(t, few, key);
      ghost var kid, c := t.kids[s], ChildErased(t, few, gl, gr, key);
      EraseChildReady(t, few, gl, gr, key, pre, post);
      if c.Done? { EraseChildDone(t, few, gl, gr, key, pre, post); }
      BesideFrame(t, s);
      AllExisting(t.kids[..s]);
      AllExisting(t.kids[s + 1..]);
      CousinsExisting(gl, gr);
      ChainExisting(pre + LeafRefs(t) + post);
      RefInside(kid);
      found, update, lastkey := EraseFromLeaf(curr, key, kid, kid.MinSlots());
      assert HoldsBeside(t, s);
      assert CousinHeld(t, gl) && CousinHeld(t, gr);
      if found {
        assert Linked(pre + LeafRefs(Stepped(t, few, gl, gr, key)) + post);
      }
    }

    method EraseInInnerChild(key: Key, curr: Node, left: Node?, right: Node?, leftparent: Node?, rightparent: Node?,
                             ghost t: Tree, ghost few: nat, ghost gl: Cousin, ghost gr: Cousin,
                             ghost pre: seq<Node>, ghost post: seq<Node>)
      returns (found: bool, update: bool, lastkey: Key)
      requires t.Inner? && EraseContext(t, few, gl, gr, pre, post)
      requires t.kids[DescentSlot(t, few, key)].Inner? && curr == t.kids[DescentSlot(t, few, key)].ref
      requires ChildPoints(t, DescentSlot(t, few, key), gl, gr, left, right, leftparent, rightparent)
      modifies Foot(t)`slotkey, Foot(t)`slotdata, Foot(t)`childid, Foot(t)`slotuse
      modifies Links(t, pre, post)`prevleaf, Links(t, pre, post)`nextleaf
      modifies this`tailleaf, this`leaves, this`innernodes
      ensures RemovedInChild(t, few, gl, gr, key, pre, post, found, update, lastkey)
      decreases t, 0, 0
    {
      hide Holds, Apart, BTreeTree.Valid, Foot, Linked, LeafRefs, LeafHolds, ChainOk, InnerHolds, InnerCount, ErasedOk, CousinOk, WithChild, FootAll, AllHold, RefsOf, EraseNode, CousinHeld, CousinFoot, HoldsBeside,
        Stepped, LeftOf, RightOf, LeafRefsAll;
      ghost var s := DescentSlot(t, few, key);
      ghost var kid, c := t.kids[s], ChildErased(t, few, gl, gr, key);
      EraseChildReady(t, few, gl, gr, key, pre, post);
      if c.Done? { EraseChildDone(t, few, gl, gr, key, pre, post); }
      BesideFrame(t, s);
      AllExisting(t.kids[..s]);
      AllExisting(t.kids[s + 1..]);
      CousinsExisting(gl, gr);
      CousinsBeside(t, s, gl, gr);
      ChainExisting(pre + LeafRefs(t) + post);
      found, update, lastkey := EraseBelow(key, curr, left, right, leftparent, rightparent,
                                           kid, kid.MinSlots(), LeftOf(t, s, gl), RightOf(t, s, gr),
                                           pre + LeafRefsAll(t.kids[..s]), LeafRefsAll(t.kids[s + 1..]) + post);
      assert HoldsBeside(t, s);
      assert CousinHeld(t, gl) && CousinHeld(t, gr);
      if found {
        assert Linked(pre + LeafRefs(Stepped(t, few, gl, gr, key)) + post);
      }
    }

    /** The removal below an inner node, up to the unlisting of a merged child. */
    method EraseBelow(key: Key, inner: Node, left: Node?, right: Node?, leftparent: Node?, rightparent: Node?,
                      ghost t: Tree, ghost few: nat, ghost gl: Cousin, ghost gr: Cousin,
                      ghost pre: seq<Node>, ghost post: seq<Node>)
      returns (found: bool, update: bool, lastkey: Key)
      requires t.Inner? && inner == t.ref && EraseContext(t, few, gl, gr, pre, post)
      requires Points(gl, left, leftparent) && Points(gr, right, rightparent)
      modifies Foot(t)`slotkey, Foot(t)`slotdata, Foot(t)`childid, Foot(t)`slotuse
      modifies Links(t, pre, post)`prevleaf, Links(t, pre, post)`nextleaf
      modifies this`tailleaf, this`leaves, this`innernodes
      ensures var c := EraseNode(t, few, gl, gr, key);
        && (found <==> c.Done?)
        && (!found ==> Holds(t) && Linked(pre + LeafRefs(t) + post) && leaves == old(leaves) && innernodes == old(innernodes))
        && (found ==>
              && Holds(c.node) && (update <==> c.last.Some?) && (update ==> lastkey == c.last.value)
              && Linked(pre + LeafRefs(c.node) + post)
              && leaves - |LeafRefs(c.node)| == old(leaves) - |LeafRefs(t)|
              && innernodes - InnerCount(c.node) == old(innernodes) - InnerCount(t))
      decreases t, 1
    {
      hide Holds, Apart, BTreeTree.Valid, Linked, LeafRefs, ErasedOk, ChildPoints, Points, CousinHeld, HoldsBeside, InnerCount, EraseNode,
        Foot, FootAll, CousinOk, WithChild;
      EraseNodeOutline(t, few, gl, gr, key);
      ghost var c := ChildErased(t, few, gl, gr, key);
      EraseExisting(t, gl, gr, pre + LeafRefs(t) + post);
      var slot := SlotInMemory(inner, key, t, few);
      var myleft, myright, myleftparent, myrightparent :=
        ChildNeighbours(inner, slot, left, right, leftparent, rightparent, t, few, gl, gr);
      found, update, lastkey := EraseInChild(key, inner.childid[slot], myleft, myright, myleftparent, myrightparent,
                                             t, few, gl, gr, pre, post);
      if !found {
        HoldsAround(t, slot);
        return;
      }
      ChainExisting(pre + LeafRefs(Stepped(t, few, gl, gr, key)) + post);
      RefOutside(t, gl);
      RefOutside(t, gr);
      update := SetLastKey(inner, slot, update, lastkey, t, c.node, c.last);
      FinishBelow(inner, slot, myleft, myright, myleftparent, myrightparent, key, t, few, gl, gr, pre, post);
    }

    /** The repair of the child and, after a merge, the removal of the emptied node. */
    method FinishBelow(inner: Node, slot: nat, left: Node?, right: Node?, leftparent: Node?, rightparent: Node?,
                       ghost key: Key, ghost t: Tree, ghost few: nat, ghost gl: Cousin, ghost gr: Cousin,
                       ghost pre: seq<Node>, ghost post: seq<Node>)
      requires t.Inner? && inner == t.ref && Descent(t, few, gl, gr) && slot == DescentSlot(t, few, key)
      requires ChildErased(t, few, gl, gr, key).Done?
      requires Holds(Stepped(t, few, gl, gr, key)) && CousinHeld(t, gl) && CousinHeld(t, gr)
      requires Linked(pre + LeafRefs(Stepped(t, few, gl, gr, key)) + post)
      requires ChildPoints(t, slot, gl, gr, left, right, leftparent, rightparent)
      modifies Foot(t)`slotkey, Foot(t)`slotdata, Foot(t)`childid, Foot(t)`slotuse
      modifies Links(t, pre, post)`prevleaf, Links(t, pre, post)`nextleaf
      modifies this`tailleaf, this`leaves, this`innernodes
      ensures EraseNode(t, few, gl, gr, key).Done?
      ensures var n := EraseNode(t, few, gl, gr, key).node;
        && Holds(n) && Linked(pre + LeafRefs(n) + post)
        && leaves - |LeafRefs(n)| == old(leaves) - |LeafRefs(Stepped(t, few, gl, gr, key))|
        && innernodes - InnerCount(n) == old(innernodes) - InnerCount(Stepped(t, few, gl, gr, key))
    {
      hide Holds, Apart, BTreeTree.Valid, Linked, LeafRefs, ErasedOk, CousinHeld, InnerCount, EraseNode, Decide, Rebalance,
        Foot, FootAll, CousinOk, WithChild, RepairContext;
      ghost var t', c := Stepped(t, few, gl, gr, key), ChildErased(t, few, gl, gr, key);
      FinishParent(t, few, gl, gr, key, pre, post);
      if c.node.IsUnderflow() { FinishReady(t, few, gl, gr, key); } else { EraseNodeSteps(t, few, gl, gr, key); }
      var curr := inner.childid[slot];
      if curr.slotuse < (if curr.level == 0 then MIN_LEAF_SLOTS else MIN_INNER_SLOTS) {
        RepairAndRemove(curr, left, right, leftparent, rightparent, inner, slot,
                        t', few, LeftOf(t, slot, gl), RightOf(t, slot, gr), pre, post);
      }
    }

    method RepairAndRemove(curr: Node, left: Node?, right: Node?, leftparent: Node?, rightparent: Node?,
                           parent: Node, parentslot: nat, ghost t: Tree, ghost few: nat, ghost l: Cousin, ghost r: Cousin,
                           ghost pre: seq<Node>, ghost post: seq<Node>)
      requires RepairContext(t, few, parentslot, l, r)
      requires parent == t.ref && curr == t.kids[parentslot].ref
      requires Points(l, left, leftparent) && Points(r, right, rightparent)
      requires l.node.Some? ==> left.slotuse == l.node.value.Use() && l.node.value.MinSlots() == t.kids[parentslot].MinSlots()
      requires r.node.Some? ==> right.slotuse == r.node.value.Use() && r.node.value.MinSlots() == t.kids[parentslot].MinSlots()
      requires Linked(pre + LeafRefs(t) + post)
      modifies Foot(t)`slotkey, Foot(t)`slotdata, Foot(t)`childid, Foot(t)`slotuse
      modifies Links(t, pre, post)`prevleaf, Links(t, pre, post)`nextleaf, this`tailleaf
      modifies this`leaves, this`innernodes
      ensures RebalanceDefined(t, parentslot, Decide(l, r, t.ref))
      ensures var n := Rebalance(t, parentslot, Decide(l, r, t.ref));
        && Holds(n) && Linked(pre + LeafRefs(n) + post)
        && leaves - |LeafRefs(n)| == old(leaves) - |LeafRefs(t)|
        && innernodes - InnerCount(n) == old(innernodes) - InnerCount(t)
    {
      hide Holds, Apart, Linked, LeafRefs, InnerCount, Decide, Rebalance, Foot, FootAll, ValidBut, MergePending, MergeAt;
      RefInside(t);
      RebalanceReady(t, few, parentslot, Decide(l, r, t.ref));
      RebalanceShape(t, parentslot, Decide(l, r, t.ref));
      ghost var n := Rebalance(t, parentslot, Decide(l, r, t.ref));
      ghost var i;
      var fixmerge;
      fixmerge, i := Repair(curr, left, right, leftparent, rightparent, parent, parentslot, t, few, l, r, pre, post);
      if fixmerge {
        CountMerged(t, i);
        ChainExisting(pre + LeafRefs(n) + post);
        RemoveMerged(parent, parentslot, t, i);
      }
    }

    // Insertion

    /** `split_leaf_node`. */
    method SplitLeafNode(leaf: Node, ghost items: seq<Item>, ghost pre: seq<Node>, ghost post: seq<Node>)
      returns (newkey: Key, newleaf: Node)
      requires LeafHolds(leaf, items) && |items| == LEAF_SLOT_MAX && Linked(pre + [leaf] + post)
      modifies leaf`slotuse, leaf`nextleaf, NodesIn(post)`prevleaf, this`tailleaf, this`leaves
      ensures fresh(newleaf) && leaves == old(leaves) + 1
      ensures LeafHolds(leaf, items[..|items| / 2]) && LeafHolds(newleaf, items[|items| / 2..])
      ensures newkey == LastKey(items[..|items| / 2])
      ensures Linked(pre + [leaf, newleaf] + post)
    {
      hide ChainOk, LeafHolds;
      ChainExisting(pre + [leaf] + post);
      newleaf := new Node.InitLeaf();
      leaves := leaves + 1;
      SameEnds(pre, leaf, newleaf, post);
      var wasTail := LinkAfter(leaf, newleaf, pre, post);
      if wasTail { tailleaf := newleaf; }
      ChainExisting(pre + [leaf, newleaf] + post);
      newkey := MoveLeafTail(leaf, newleaf, items);
    }

    /** What `insert_descend` hands back for the node `t` it was called on. */
    ghost predicate InsertHeld(t: Tree, pre: seq<Node>, post: seq<Node>, r: Inserted, more: set<Node>,
                               place: Node, slot: nat, splitkey: Key, splitnode: Node?)
      reads FootAll(After(r))`level, FootAll(After(r))`slotuse, FootAll(After(r))`slotkey, FootAll(After(r))`childid,
        FootAll(After(r))`slotdata
      reads this`headleaf, this`tailleaf
      reads NodesIn(pre + LeafRefsAll(After(r)) + post)`prevleaf, NodesIn(pre + LeafRefsAll(After(r)) + post)`nextleaf
    {
      && place == r.place && slot == r.slot
      && (splitnode == null <==> r.split.None?)
      && (r.split.Some? ==> splitkey == r.split.value.key && splitnode == r.split.value.sibling.ref)
      && AllHold(After(r)) && Grown(t, r, more)
      && Linked(pre + LeafRefsAll(After(r)) + post)
    }

    /** The leaf part of `insert_descend`. */
    method InsertAtLeaf(leaf: Node, key: Key, data: Data, ghost t: Tree, ghost few: nat, ghost pre: seq<Node>, ghost post: seq<Node>)
      returns (place: Node, slot: nat, inserted: bool, splitkey: Key, splitnode: Node?, ghost spare: Node, ghost more: set<Node>)
      requires t.Leaf? && leaf == t.ref && Holds(t) && BTreeTree.Valid(t, few) && Linked(pre + [leaf] + post)
      modifies leaf`slotkey, leaf`slotdata, leaf`slotuse, leaf`nextleaf, NodesIn(post)`prevleaf
      modifies this`tailleaf, this`leaves
      ensures fresh(more)
      ensures var r := InsertInLeaf(t, Item(key, data), spare);
        && inserted == r.done && InsertHeld(t, pre, post, r, more, place, slot, splitkey, splitnode)
        && leaves - |LeafRefsAll(After(r))| == old(leaves) - 1
        && InnerCountAll(After(r)) == 0
    {
      hide LeafHolds, Grown, Linked, FindLower, FindUpper, PutItem, SortedItems, InsertInLeaf, AllHold, LeafRefsAll, InnerCountAll;
      splitkey, splitnode, spare, more := 0, null, leaf, {};
      LeafInMemory(t, few);
      slot := FindLowerSlot(leaf, key, KeysOf(t.items));
      ChainExisting(pre + [leaf] + post);
      if !ALLOW_DUPLICATES && slot < leaf.slotuse && key == leaf.slotkey[slot] {
        place, inserted := leaf, false;
      } else if leaf.slotuse == LEAF_SLOT_MAX {
        inserted := true;
        place, slot, splitkey, splitnode := InsertAtFullLeaf(leaf, slot, key, data, t.items, pre, post);
        spare, more := splitnode, {splitnode};
      } else {
        place, inserted := leaf, true;
        slot, splitkey := PutInLeaf(leaf, slot, key, data, splitkey, splitnode, t.items);
      }
      ghost var r := InsertInLeaf(t, Item(key, data), spare);
      LeafForm(t, Item(key, data), spare);
      GrownLeaf(t, r, more);
      LeavesHeld(r);
    }

    /**
     * A full leaf is split, and the pair goes into one of the halves. The
     * separator stays the last key of the old half: its overwriting is never
     * reached after a split.
     */
    method InsertAtFullLeaf(leaf: Node, at: nat, key: Key, data: Data, ghost items: seq<Item>, ghost pre: seq<Node>, ghost post: seq<Node>)
      returns (place: Node, slot: nat, splitkey: Key, splitnode: Node)
      requires LeafHolds(leaf, items) && SortedItems(items) && |items| == LEAF_SLOT_MAX && Linked(pre + [leaf] + post)
      requires at == FindLower(KeysOf(items), key)
      modifies leaf`slotkey, leaf`slotdata, leaf`slotuse, leaf`nextleaf, NodesIn(post)`prevleaf
      modifies this`tailleaf, this`leaves
      ensures fresh(splitnode) && leaves == old(leaves) + 1
      ensures Linked(pre + [leaf, splitnode] + post)
      ensures var x, a, b := Item(key, data), items[..|items| / 2], items[|items| / 2..];
        if at >= |a| then
          && LeafHolds(leaf, a) && LeafHolds(splitnode, PutItem(b, x)) && splitkey == LastKey(a)
          && place == splitnode && slot == FindUpper(KeysOf(b), key)
        else
          && LeafHolds(leaf, PutItem(a, x)) && LeafHolds(splitnode, b)
          && splitkey == LastKey(a) && place == leaf && slot == FindUpper(KeysOf(a), key)
    {
      hide LeafHolds, ChainOk, FindLower, FindUpper, PutItem;
      splitkey, splitnode := SplitLeafNode(leaf, items, pre, post);
      ChainExisting(pre + [leaf, splitnode] + post);
      ghost var a, b := items[..|items| / 2], items[|items| / 2..];
      assert items == a + b;
      SortedConcat(a, b);
      LeafUse(leaf, a);
      slot, place := at, leaf;
      if slot >= leaf.slotuse {
        slot, place := slot - leaf.slotuse, splitnode;
      }
      slot, splitkey := PutInLeaf(place, slot, key, data, splitkey, splitnode, if place == leaf then a else b);
    }

    /** What `insert_descend` may rely on in memory. */
    ghost predicate InsertContext(t: Tree, few: nat, pre: seq<Node>, post: seq<Node>)
      reads Foot(t)`level, Foot(t)`slotuse, Foot(t)`slotkey, Foot(t)`childid, Foot(t)`slotdata
      reads this`headleaf, this`tailleaf
      reads NodesIn(pre + LeafRefs(t) + post)`prevleaf, NodesIn(pre + LeafRefs(t) + post)`nextleaf
    {
      && BTreeTree.Valid(t, few) && (t.Inner? ==> few > 0) && Apart(t) && Holds(t)
      && Linked(pre + LeafRefs(t) + post)
    }

    /** Everything the descent into child `s` needs. */
    lemma {:induction false} InsertChildReady(t: Tree, few: nat, key: Key, pre: seq<Node>, post: seq<Node>)
      requires t.Inner? && InsertContext(t, few, pre, post)
      ensures var s := DescentSlot(t, few, key);
        var a, b := pre + LeafRefsAll(t.kids[..s]), LeafRefsAll(t.kids[s + 1..]) + post;
        && |t.kids| == |t.keys| + 1 && t.kids[s].Level() + 1 == t.level
        && InsertContext(t.kids[s], t.kids[s].MinSlots(), a, b)
        && HoldsBeside(t, s)
        && Links(t.kids[s], a, b) <= Links(t, pre, post)
        && a + LeafRefs(t.kids[s]) + b == pre + LeafRefs(t) + post
    {
      hide Holds, Apart, BTreeTree.Valid, Foot, Linked, LeafRefs, HoldsBeside;
      var s := DescentSlot(t, few, key);
      Bounds(t, few);
      KidAt(t, few, s);
      FootAt(t.kids, s);
      ApartTop(t);
      HoldsAround(t, s);
      ShapeAround(t.kids, s, s + 1);
      assert t.kids[s..s + 1] == [t.kids[s]];
      ShapeOne(t.kids[s]);
      LinksOfPart(t, s, s + 1, pre, post);
      LeafRefsTop(t);
      Regrouped(pre, LeafRefsAll(t.kids[..s]), LeafRefs(t.kids[s]), LeafRefsAll(t.kids[s + 1..]), post);
    }

    /** `insert_descend`. */
    method InsertDescend(n: Node, key: Key, data: Data, ghost t: Tree, ghost few: nat, ghost pre: seq<Node>, ghost post: seq<Node>)
      returns (place: Node, slot: nat, inserted: bool, splitkey: Key, splitnode: Node?,
               ghost r: Inserted, ghost spare: seq<Node>, ghost more: set<Node>)
      requires n == t.ref && InsertContext(t, few, pre, post)
      modifies Foot(t)`slotkey, Foot(t)`slotdata, Foot(t)`childid, Foot(t)`slotuse
      modifies Links(t, pre, post)`prevleaf, Links(t, pre, post)`nextleaf
      modifies this`tailleaf, this`leaves, this`innernodes
      ensures fresh(more)
      ensures |spare| == t.Level() + 1 && ShapeOk(t) && r == InsertNode(t, Item(key, data), spare) && inserted == r.done
      ensures InsertHeld(t, pre, post, r, more, place, slot, splitkey, splitnode)
      ensures leaves - |LeafRefsAll(After(r))| == old(leaves) - |LeafRefs(t)|
      ensures innernodes - InnerCountAll(After(r)) == old(innernodes) - InnerCount(t)
      decreases t, 1
    {
      hide Holds, Apart, Linked, Foot, InsertHeld, BTreeTree.Valid;
      ValidShape(t, few);
      LeafOrInner(t);
      RefInside(t);
      if n.level == 0 {
        LeafShape(t);
        ghost var spareleaf;
        place, slot, inserted, splitkey, splitnode, spareleaf, more := InsertAtLeaf(n, key, data, t, few, pre, post);
        spare := [spareleaf];
        r := InsertNode(t, Item(key, data), spare);
      } else {
        place, slot, inserted, splitkey, splitnode, r, spare, more := InsertBelow(n, key, data, t, few, pre, post);
      }
    }

    /** The inner part of `insert_descend`. */
    method InsertBelow(inner: Node, key: Key, data: Data, ghost t: Tree, ghost few: nat, ghost pre: seq<Node>, ghost post: seq<Node>)
      returns (place: Node, slot: nat, inserted: bool, splitkey: Key, splitnode: Node?,
               ghost r: Inserted, ghost spare: seq<Node>, ghost more: set<Node>)
      requires t.Inner? && inner == t.ref && InsertContext(t, few, pre, post)
      modifies Foot(t)`slotkey, Foot(t)`slotdata, Foot(t)`childid, Foot(t)`slotuse
      modifies Links(t, pre, post)`prevleaf, Links(t, pre, post)`nextleaf
      modifies this`tailleaf, this`leaves, this`innernodes
      ensures fresh(more)
      ensures |spare| == t.Level() + 1 && ShapeOk(t) && r == InsertNode(t, Item(key, data), spare) && inserted == r.done
      ensures InsertHeld(t, pre, post, r, more, place, slot, splitkey, splitnode)
      ensures leaves - |LeafRefsAll(After(r))| == old(leaves) - |LeafRefs(t)|
      ensures innernodes - InnerCountAll(After(r)) == old(innernodes) - InnerCount(t)
      decreases t, 0
    {
      hide Holds, Apart, Linked, Foot, BTreeTree.Valid, AllHold, Grown, InnerHolds, LeafRefs, LeafRefsAll, InnerCount, InnerCountAll, FootAll, HoldsBeside,
        InsertNode, After, FindLower;
      ghost var s := DescentSlot(t, few, key);
      ghost var a, b := LeafRefsAll(t.kids[..s]), LeafRefsAll(t.kids[s + 1..]);
      InsertChildReady(t, few, key, pre, post);
      ValidShape(t, few);
      BesideFrame(t, s);
      RefInside(t);
      Existing(t);
      Existing(t.kids[s]);
      AllExisting(t.kids[..s]);
      AllExisting(t.kids[s + 1..]);
      ChainExisting(pre + LeafRefs(t) + post);
      var at := SlotInMemory(inner, key, t, few);
      var newkey, newchild;
      ghost var rc, below;
      place, slot, inserted, newkey, newchild, rc, below, more :=
        InsertDescend(inner.childid[at], key, data, t.kids[s], t.kids[s].MinSlots(), pre + a, b + post);
      InsertNodeRef(t.kids[s], Item(key, data), below);
      splitkey, splitnode, r, spare, more := PlaceBelow(inner, at, newkey, newchild, key, data, t, few, pre, post, rc, below, more);
    }

    /** The pending child, if any, placed in this node. */
    method PlaceBelow(inner: Node, slot: nat, newkey: Key, newchild: Node?, ghost key: Key, ghost data: Data,
                      ghost t: Tree, ghost few: nat, ghost pre: seq<Node>, ghost post: seq<Node>,
                      ghost rc: Inserted, ghost below: seq<Node>, ghost more: set<Node>)
      returns (splitkey: Key, splitnode: Node?, ghost r: Inserted, ghost spare: seq<Node>, ghost all: set<Node>)
      requires t.Inner? && inner == t.ref && BTreeTree.Valid(t, few) && Apart(t) && ShapeOk(t)
      requires slot == DescentSlot(t, few, key) && |t.kids| == |t.keys| + 1 && t.kids[slot].Level() + 1 == t.level
      requires slot == FindLower(t.keys, key)
      requires |below| == t.level && rc == InsertNode(t.kids[slot], Item(key, data), below) && rc.node.ref == t.kids[slot].ref
      requires HoldsBeside(t, slot) && AllHold(After(rc)) && Grown(t.kids[slot], rc, more) && more !! Foot(t)
      requires newchild == null <==> rc.split.None?
      requires rc.split.Some? ==> newkey == rc.split.value.key && newchild == rc.split.value.sibling.ref
      requires Linked(pre + LeafRefsAll(t.kids[..slot]) + LeafRefsAll(After(rc)) + (LeafRefsAll(t.kids[slot + 1..]) + post))
      modifies inner`slotkey, inner`childid, inner`slotuse, this`innernodes
      ensures all >= more && fresh(all - more)
      ensures |spare| == t.Level() + 1 && r == InsertNode(t, Item(key, data), spare)
      ensures r.done == rc.done
      ensures InsertHeld(t, pre, post, r, all, rc.place, rc.slot, splitkey, splitnode)
      ensures |LeafRefsAll(After(r))| - |LeafRefs(t)| == |LeafRefsAll(After(rc))| - |LeafRefs(t.kids[slot])|
      ensures innernodes - InnerCountAll(After(r)) + InnerCount(t) ==
              old(innernodes) - InnerCountAll(After(rc)) + InnerCount(t.kids[slot])
    {
      hide Holds, Apart, Linked, Foot, BTreeTree.Valid, AllHold, Grown, InnerHolds, LeafRefs, LeafRefsAll, InnerCount, InnerCountAll,
        FootAll, HoldsBeside, SplitInner, KidsAfter, RefsOf, InsertNode, ShapeOk, InsertHeld, Placed, After;
      ghost var x := Item(key, data);
      ghost var chain := pre + (LeafRefsAll(t.kids[..slot]) + LeafRefsAll(After(rc)) + LeafRefsAll(t.kids[slot + 1..])) + post;
      splitkey, splitnode, all, spare := 0, null, more, below + [inner];
      Existing(t);
      GrownKids(t, slot, rc, more);
      HoldsShape(t, slot);
      Bounds(t, few);
      Regrouped(pre, LeafRefsAll(t.kids[..slot]), LeafRefsAll(After(rc)), LeafRefsAll(t.kids[slot + 1..]), post);
      ChainExisting(chain);
      if newchild == null {
        PlacedNone(t, slot, x, below, inner, rc, more);
      } else if inner.slotuse == INNER_SLOT_MAX {
        innernodes := innernodes + 1;
        splitkey, splitnode := SplitAndPlace(inner, slot, newkey, newchild, t, rc);
        spare, all := below + [splitnode], more + {splitnode};
        PlacedSplit(t, slot, x, below, splitnode, rc, more);
      } else {
        PlaceChild(inner, slot, newkey, newchild, t, rc);
        PlacedBeside(t, slot, x, below, inner, rc, more);
      }
      r := InsertNode(t, x, spare);
      assert Linked(chain);
      PlacedHeld(t, slot, rc, pre, post, r, all, splitkey, splitnode, chain);
    }

    lemma PlacedHeld(t: Tree, s: nat, rc: Inserted, pre: seq<Node>, post: seq<Node>, r: Inserted, all: set<Node>,
                     splitkey: Key, splitnode: Node?, chain: seq<Node>)
      requires t.Inner? && s < |t.kids| && Placed(t, s, rc, r, all)
      requires chain == pre + (LeafRefsAll(t.kids[..s]) + LeafRefsAll(After(rc)) + LeafRefsAll(t.kids[s + 1..])) + post
      requires Linked(chain)
      requires splitnode == null <==> r.split.None?
      requires r.split.Some? ==> splitkey == r.split.value.key && splitnode == r.split.value.sibling.ref
      ensures InsertHeld(t, pre, post, r, all, rc.place, rc.slot, splitkey, splitnode) && r.done == rc.done
      ensures |LeafRefsAll(After(r))| ==
              |LeafRefsAll(t.kids[..s])| + |LeafRefsAll(After(rc))| + |LeafRefsAll(t.kids[s + 1..])|
      ensures InnerCountAll(After(r)) - InnerCount(t) ==
              InnerCountAll(After(rc)) - InnerCount(t.kids[s]) + if r.split.Some? then 1 else 0
    {
      hide Linked, Grown, AllHold, LeafRefsAll, InnerCountAll, InnerCount, After;
    }

    // The whole object

    ghost function Chain(): seq<Node>
      reads this`shape
    {
      if shape.None? then [] else LeafRefs(shape.value)
    }

    ghost function Nodes(): set<Node>
      reads this`shape
    {
      if shape.None? then {} else Foot(shape.value)
    }

    /** The pairs stored, in order. */
    ghost function Items(): seq<Item>
      reads this`shape
    {
      Pairs(shape)
    }

    /** Memory, invariant and counters agree; `count` is the number of items claimed. */
    ghost predicate Structured(count: int)
      reads this, Nodes()
    {
      && (shape.None? ==> root == null)
      && (shape.Some? ==> root == shape.value.ref && Holds(shape.value))
      && ValidRoot(shape)
      && (ChainInside(); Linked(Chain()))
      && itemcount == count
      && leaves == |Chain()|
      && innernodes == (if shape.None? then 0 else InnerCount(shape.value))
    }

    /** What `verify` asserts, and that a tree without duplicates has none. */
    ghost predicate Valid()
      reads this, Nodes()
    {
      && Structured(|Items()|)
      && (!ALLOW_DUPLICATES ==> UniqueKeys(Items()))
    }

    lemma StructureFacts(count: int)
      requires Structured(count)
      ensures Items() == Pairs(shape) && ValidRoot(shape) && itemcount == count && (root == null <==> shape.None?)
    {
    }

    lemma ChainInside()
      ensures NodesIn(Chain()) <= Nodes()
    {
      if shape.Some? { LeavesInside(shape.value); }
    }

    /** An empty tree. */
    constructor ()
      ensures Valid() && Items() == [] && shape == None
      ensures root == null && headleaf == null && tailleaf == null && itemcount == leaves == innernodes == 0
    {
      root, headleaf, tailleaf := null, null, null;
      itemcount, leaves, innernodes := 0, 0, 0;
      shape := None;
    }

    /** `erase_one`: the first pair with the key goes, or nothing changes. */
    method EraseOne(key: Key) returns (found: bool)
      requires Valid()
      modifies this, Nodes()
      ensures Valid() && Nodes() <= old(Nodes())
      ensures shape == BTreeErase.EraseOne(old(shape), key).0
      ensures found <==> HasKey(old(Items()), key)
      ensures Items() == RemoveFirst(old(Items()), key)
    {
      hide Structured, UniqueKeys, BTreeErase.EraseOne, HasKey, RemoveFirst, ValidRoot, Foot, Pairs;
      StructureFacts(|Items()|);
      EraseOneOk(shape, key);
      EraseOneShape(shape, key);
      RemoveFirstStep(Items(), key);
      if !ALLOW_DUPLICATES { UniqueCount(Items(), key); }
      if root == null { return false; }
      if root.level == 0 { found := EraseAtLeaf(key); } else { found := EraseAtInner(key); }
      StructureFacts(old(itemcount));
      if found { Discount(); }
    }

    /** `erase`: all pairs with the key go, and are counted. */
    method Erase(key: Key) returns (c: nat)
      requires Valid()
      modifies this, Nodes()
      ensures Valid() && Nodes() <= old(Nodes())
      ensures c == CountKey(old(Items()), key)
      ensures Items() == RemoveAll(old(Items()), key)
    {
      hide Structured, BTreeErase.EraseOne;
      c := 0;
      var found := true;
      while found
        invariant Valid() && Nodes() <= old(Nodes())
        invariant c + CountKey(Items(), key) == CountKey(old(Items()), key)
        invariant RemoveAll(Items(), key) == RemoveAll(old(Items()), key)
        invariant !found ==> !HasKey(Items(), key)
        decreases found, |Items()|
      {
        RemoveFirstStep(Items(), key);
        if !ALLOW_DUPLICATES { UniqueCount(Items(), key); }
        found := EraseOne(key);
        RemoveFirstStep(Items(), key);
        if found {
          c := c + 1;
          if !ALLOW_DUPLICATES { found := false; }
        }
      }
      RemoveFirstStep(Items(), key);
    }

    /**
     * `insert_start`: exactly the given pair is added, or, when duplicates are
     * not allowed and the key is present, nothing changes. The place handed
     * back is position `p`, where the pair was put, or where the key is.
     */
    method Insert(key: Key, data: Data) returns (place: Node, slot: nat, inserted: bool, ghost p: nat)
      requires Valid()
      modifies this, Nodes()
      ensures Valid() && fresh(Nodes() - old(Nodes()))
      ensures inserted <==> ALLOW_DUPLICATES || !HasKey(old(Items()), key)
      ensures inserted ==> p <= |old(Items())| && Items() == PutAt(old(Items()), p, Item(key, data))
      ensures !inserted ==> shape == old(shape) && p < |Items()| && Items()[p].key == key
      ensures Located(LeavesOf(shape), place, slot, p)
      ensures place in Chain() && slot < place.slotuse <= |place.slotkey| && slot < |place.slotdata|
      ensures place.slotkey[slot] == key && (inserted ==> place.slotdata[slot] == data)
    {
      hide Structured, HasKey, ValidRoot, Foot, Pairs, Shows, ShowsKey, InsertContext, Holds, Linked, IsPut, UniqueKeys, Grown, LeafRefs, InnerCount,
        InsertNode, InsertHeld, GrowRoot, After, LeafRefsAll, InnerCountAll, BTreeTree.Valid, Apart, ShapeOk, Contents, InsertStart, Items, Chain, AllHold,
        Located, LeavesOf, PutThere, PutAt, Nodes;
      StructureFacts(|Items()|);
      ghost var x, few := Item(key, data), if shape.None? then 0 else 1;
      ghost var t := StartRoot();
      assert [] + LeafRefs(t) + [] == LeafRefs(t);
      var splitkey, splitnode;
      ghost var r, spare, more;
      place, slot, inserted, splitkey, splitnode, r, spare, more := InsertDescend(root, key, data, t, few, [], []);
      HeldParts(t, r, more, place, slot, splitkey, splitnode);
      InsertNodeRef(t, x, spare);
      Existing(t);
      FootAllocated(t, r, more);
      ChainExisting(LeafRefsAll(After(r)));
      ghost var n, top := RaiseRoot(splitkey, splitnode, t, r, more);
      InsertOutcome(shape, t.ref, x, spare, r, top);
      p := InsertLocated(shape, t.ref, x, spare, r, top);
      PutSplit(Contents(n), Pairs(shape), p, x, r.done);
      Adopt(n, x, place, slot, inserted);
    }

    /** The new tree becomes that of the object; the position handed back is a position in it. */
    method Adopt(ghost n: Tree, ghost x: Item, place: Node, slot: nat, inserted: bool)
      requires root == n.ref && Holds(n) && BTreeTree.Valid(n, 1) && Apart(n)
      requires Linked(LeafRefs(n)) && leaves == |LeafRefs(n)| && innernodes == InnerCount(n)
      requires if inserted then Shows(n, place, slot, x) else ShowsKey(n, place, slot, x.key)
      modifies this`shape, this`itemcount
      ensures itemcount == old(itemcount) + (if inserted then 1 else 0) && shape == Some(n)
      ensures Structured(itemcount) && Items() == Contents(n) && Chain() == LeafRefs(n) && Nodes() == Foot(n)
      ensures place in Chain() && slot < place.slotuse <= |place.slotkey| && slot < |place.slotdata|
      ensures place.slotkey[slot] == x.key && (inserted ==> place.slotdata[slot] == x.data)
    {
      hide Structured, Items, Chain, Nodes, Holds, Linked, LeafRefs, InnerCount, BTreeTree.Valid, Apart, Shows, ShowsKey;
      PositionHolds(n, place, slot, x, inserted);
      Existing(n);
      shape := Some(n);
      if inserted { itemcount := itemcount + 1; }
      Assembled(n);
    }

    lemma Assembled(n: Tree)
      requires shape == Some(n) && root == n.ref && Holds(n) && BTreeTree.Valid(n, 1) && Apart(n)
      requires Linked(LeafRefs(n)) && leaves == |LeafRefs(n)| && innernodes == InnerCount(n)
      ensures Structured(itemcount) && Items() == Contents(n) && Chain() == LeafRefs(n) && Nodes() == Foot(n)
    {
      hide Holds, Linked, LeafRefs, InnerCount, Apart, BTreeTree.Valid;
    }

    lemma HeldParts(t: Tree, r: Inserted, more: set<Node>, place: Node, slot: nat, splitkey: Key, splitnode: Node?)
      requires InsertHeld(t, [], [], r, more, place, slot, splitkey, splitnode)
      ensures place == r.place && slot == r.slot && AllHold(After(r)) && Grown(t, r, more)
      ensures splitnode == null <==> r.split.None?
      ensures r.split.Some? ==> splitkey == r.split.value.key && splitnode == r.split.value.sibling.ref
      ensures Linked(LeafRefsAll(After(r)))
    {
      hide AllHold, Grown, Linked;
      assert [] + LeafRefsAll(After(r)) + [] == LeafRefsAll(After(r));
    }

    /** A split root gets a parent. */
    method RaiseRoot(newkey: Key, newchild: Node?, ghost t: Tree, ghost r: Inserted, ghost more: set<Node>)
      returns (ghost n: Tree, ghost top: Node)
      requires root == t.ref == r.node.ref && AllHold(After(r)) && Grown(t, r, more)
      requires newchild == null <==> r.split.None?
      requires r.split.Some? ==> newkey == r.split.value.key && newchild == r.split.value.sibling.ref
      modifies this`root, this`innernodes
      ensures n == GrowRoot(r, top) && root == n.ref && Holds(n) && Apart(n)
      ensures Foot(n) == Foot(t) + more + (if r.split.Some? then {top} else {})
      ensures r.split.Some? ==> fresh(top)
      ensures LeafRefs(n) == LeafRefsAll(After(r))
      ensures innernodes - InnerCount(n) == old(innernodes) - InnerCountAll(After(r))
    {
      hide Holds, AllHold, Apart, AllApart, Foot, FootAll, LeafRefs, LeafRefsAll, InnerCount, InnerCountAll;
      AllExisting(After(r));
      top := root;
      n := GrowRoot(r, top);
      if newchild == null {
        AllHoldTwo(r.node, r.node);
        ShapeOne(r.node);
      } else {
        ghost var x, y := r.node, r.split.value.sibling;
        AllHoldTwo(x, y);
        LeafOrInner(x);
        var newroot := new Node.InitInner(root.level + 1);
        newroot.slotkey := newroot.slotkey[0 := newkey];
        newroot.childid := newroot.childid[0 := root];
        newroot.childid := newroot.childid[1 := newchild];
        newroot.slotuse := 1;
        top := newroot;
        n := GrowRoot(r, top);
        root := newroot;
        innernodes := innernodes + 1;
        TwoSlots(top.childid, n.kids);
        OneSlot(top.slotkey, newkey);
        HoldsTop(n);
        TopShape(n);
      }
    }

    /** An empty tree gets an empty leaf. */
    method StartRoot() returns (ghost t: Tree)
      requires Structured(itemcount)
      modifies this`root, this`headleaf, this`tailleaf, this`leaves
      ensures root != null && t == StartOf(shape, root) && (shape.None? ==> fresh(root))
      ensures InsertContext(t, if shape.None? then 0 else 1, [], []) && root == t.ref
      ensures fresh(Foot(t) - Nodes())
      ensures leaves == |LeafRefs(t)| && innernodes == InnerCount(t)
    {
      hide Holds, Linked, Apart, LeafRefs, InnerCount, Foot, BTreeTree.Valid;
      if root == null {
        root := new Node.InitLeaf();
        leaves := leaves + 1;
        headleaf, tailleaf := root, root;
        t := Leaf(root, []);
        FirstLeaf(t);
      } else {
        t := shape.value;
        Existing(t);
      }
      assert [] + LeafRefs(t) + [] == LeafRefs(t);
    }

    lemma FirstLeaf(t: Tree)
      requires t.Leaf? && t.items == [] && root == headleaf == tailleaf == t.ref
      requires t.ref.level == 0 && t.ref.slotuse == 0 && |t.ref.slotkey| == |t.ref.slotdata| == LEAF_SLOT_MAX
      requires t.ref.prevleaf == null && t.ref.nextleaf == null
      ensures Holds(t) && BTreeTree.Valid(t, 0) && Apart(t) && Linked(LeafRefs(t))
      ensures Foot(t) == {t.ref} && |LeafRefs(t)| == 1 && InnerCount(t) == 0
    {
    }

    method Discount()
      requires Structured(itemcount)
      modifies this`itemcount
      ensures itemcount == old(itemcount) - 1 && Structured(itemcount)
    {
      hide Holds, Linked, ValidRoot;
      if shape.Some? { Existing(shape.value); }
      itemcount := itemcount - 1;
    }

    /** The erase when the root is a leaf; an emptied root goes away. */
    method EraseAtLeaf(key: Key) returns (found: bool)
      requires Structured(itemcount) && shape.Some? && root.level == 0
      modifies this, Nodes()
      ensures Structured(old(itemcount))
      ensures shape == BTreeErase.EraseOne(old(shape), key).0 && found == BTreeErase.EraseOne(old(shape), key).1
    {
      hide Holds, Linked, LeafRefs, InnerCount, Foot, Apart, BTreeTree.Valid, EraseInLeaf, BTreeErase.EraseOne, LeafHolds;
      ghost var t := shape.value;
      LeafOrInner(t);
      Existing(t);
      ChainExisting(LeafRefs(t));
      RefInside(t);
      LeafErased(t, key);
      var update, lastkey;
      found, update, lastkey := EraseFromLeaf(root, key, t, 1);
      if !found {
        Assembled(t);
        return;
      }
      ghost var n := EraseInLeaf(t, key).node;
      LeafOrInner(n);
      shape := BTreeErase.EraseOne(shape, key).0;
      if root.slotuse == 0 {
        FreeNode(root);
        root, headleaf, tailleaf := null, null, null;
        NothingLeft();
      } else {
        Existing(n);
        ChainExisting(LeafRefs(n));
        Assembled(n);
      }
    }

    lemma NothingLeft()
      requires shape.None? && root == null && headleaf == null && tailleaf == null && leaves == 0 && innernodes == 0
      ensures Structured(itemcount)
    {
    }

    /** The erase when the root is an inner node. */
    method EraseAtInner(key: Key) returns (found: bool)
      requires Structured(itemcount) && shape.Some? && root.level != 0
      modifies this, Nodes()
      ensures Structured(old(itemcount))
      ensures shape == BTreeErase.EraseOne(old(shape), key).0 && found == BTreeErase.EraseOne(old(shape), key).1
    {
      hide Holds, Linked, LeafRefs, InnerCount, ErasedOk, Foot, Apart, BTreeTree.Valid, EraseNode, TrimRoot;
      ghost var t := shape.value;
      ghost var none := Cousin(None, null);
      LeafOrInner(t);
      Existing(t);
      ChainExisting(LeafRefs(t));
      assert [] + LeafRefs(t) + [] == LeafRefs(t);
      var update, lastkey;
      found, update, lastkey := EraseBelow(key, root, null, null, null, null, t, 1, none, none, [], []);
      if found {
        ghost var n := EraseNode(t, 1, none, none, key).node;
        assert [] + LeafRefs(n) + [] == LeafRefs(n);
        EraseNodeShape(t, 1, none, none, key);
        NodeFacts(t, 1, key, n, EraseNode(t, 1, none, none, key).last);
        HandOver(n);
      } else {
        Assembled(t);
      }
    }

    /** A root left with one child hands over to it. */
    method HandOver(ghost n: Tree)
      requires root == n.ref && n.Inner? && BTreeTree.Valid(n, 0) && Apart(n) && Holds(n) && Linked(LeafRefs(n))
      requires leaves == |LeafRefs(n)| && innernodes == InnerCount(n)
      modifies this`root, this`shape, this`leaves, this`innernodes
      ensures shape == TrimRoot(n) && Structured(old(itemcount))
    {
      hide Holds, Linked, Foot, Apart, LeafRefs, InnerCount, BTreeTree.Valid;
      Existing(n);
      ChainExisting(LeafRefs(n));
      SingleChild(n);
      Existing(n.kids[0]);
      shape := TrimRoot(n);
      if root.slotuse == 0 {
        var inner := root;
        root := inner.childid[0];
        FreeNode(inner);
      }
    }
  }

  /**
   * The pair put into a leaf with room. When that is not the new half of a
   * split leaf and the slot looked for was the last one, the separator is
   * overwritten, also when there is no new half at all.
   */
  method PutInLeaf(leaf: Node, at: nat, key: Key, data: Data, newkey: Key, splitnode: Node?, ghost items: seq<Item>)
    returns (slot: nat, splitkey: Key)
    requires LeafHolds(leaf, items) && SortedItems(items) && |items| < LEAF_SLOT_MAX
    modifies leaf`slotkey, leaf`slotdata, leaf`slotuse
    ensures LeafHolds(leaf, PutItem(items, Item(key, data))) && slot == FindUpper(KeysOf(items), key)
    ensures splitkey == if leaf != splitnode && at == |items| then key else newkey
  {
    splitkey := newkey;
    slot := PutLeafSlot(leaf, key, data, items);
    if leaf != splitnode && at == leaf.slotuse - 1 { splitkey := key; }
  }

  lemma LeafUse(leaf: Node, items: seq<Item>)
    requires LeafHolds(leaf, items)
    ensures leaf.slotuse == |items|
  {
  }

  lemma LeafInMemory(t: Tree, few: nat)
    requires t.Leaf? && Holds(t) && Valid(t, few)
    ensures LeafHolds(t.ref, t.items) && SortedItems(t.items) && t.ref.slotuse == |t.items| <= LEAF_SLOT_MAX
    ensures |t.items| <= |t.ref.slotkey| && t.ref.slotkey[..|t.items|] == KeysOf(t.items) && SortedKeys(KeysOf(t.items))
    ensures forall i | 0 <= i < |t.items| :: t.ref.slotkey[i] == t.items[i].key
  {
    SlotsAt(t.ref.slotkey, KeysOf(t.items));
  }

  /** The three outcomes at a leaf. */
  lemma LeafForm(t: Tree, x: Item, spare: Node)
    requires t.Leaf? && |t.items| <= LEAF_SLOT_MAX
    ensures var r, at, a, b := InsertInLeaf(t, x, spare), FindLower(KeysOf(t.items), x.key), t.items[..|t.items| / 2], t.items[|t.items| / 2..];
      if !ALLOW_DUPLICATES && at < |t.items| && t.items[at].key == x.key then
        r == Inserted(t, None, false, t.ref, at)
      else if |t.items| < LEAF_SLOT_MAX then
        r == Inserted(Leaf(t.ref, PutItem(t.items, x)), None, true, t.ref, FindUpper(KeysOf(t.items), x.key))
      else if at >= |a| then
        r == Inserted(Leaf(t.ref, a), Some(Split(LastKey(a), Leaf(spare, PutItem(b, x)))), true, spare, FindUpper(KeysOf(b), x.key))
      else
        r == Inserted(Leaf(t.ref, PutItem(a, x)), Some(Split(LastKey(a), Leaf(spare, b))), true, t.ref, FindUpper(KeysOf(a), x.key))
  {
    hide FindLower, FindUpper;
  }

  /** The node or nodes that now stand for `t`, whose child `s` became `rc`. */
  ghost predicate Placed(t: Tree, s: nat, rc: Inserted, r: Inserted, all: set<Node>)
    requires t.Inner? && s < |t.kids|
    reads FootAll(After(r))`level, FootAll(After(r))`slotuse, FootAll(After(r))`slotkey, FootAll(After(r))`childid,
      FootAll(After(r))`slotdata
  {
    && AllHold(After(r)) && Grown(t, r, all)
    && LeafRefsAll(After(r)) == LeafRefsAll(t.kids[..s]) + LeafRefsAll(After(rc)) + LeafRefsAll(t.kids[s + 1..])
    && r.done == rc.done && r.place == rc.place && r.slot == rc.slot
    && InnerCountAll(After(r)) - InnerCount(t) ==
       InnerCountAll(After(rc)) - InnerCount(t.kids[s]) + if r.split.Some? then 1 else 0
  }

  lemma {:induction false} PlacedNone(t: Tree, s: nat, x: Item, below: seq<Node>, y: Node, rc: Inserted, more: set<Node>)
    requires t.Inner? && ShapeOk(t) && s == FindLower(t.keys, x.key) && Apart(t)
    requires |below| == t.level && s < |t.kids| && rc == InsertNode(t.kids[s], x, below) && rc.node.ref == t.kids[s].ref
    requires HoldsBeside(t, s) && AllHold(After(rc)) && Grown(t.kids[s], rc, more) && more !! Foot(t)
    requires rc.split.None?
    ensures var r := InsertNode(t, x, below + [y]);
      Placed(t, s, rc, r, more) && r.split.None?
  {
    hide HoldsBeside, AllHold, Grown, Apart, Foot, FootAll, Holds, LeafRefs, LeafRefsAll, InnerCount, InnerCountAll;
    var r := InsertNode(t, x, below + [y]);
    SpareExtends(t.kids[s], x, below, y);
    HoldsUnsplit(t, s, rc);
    KidsAfterOne(t, s, rc);
    GrownOne(t, s, rc, more, r);
  }

  lemma {:induction false} PlacedBeside(t: Tree, s: nat, x: Item, below: seq<Node>, y: Node, rc: Inserted, more: set<Node>)
    requires t.Inner? && ShapeOk(t) && s == FindLower(t.keys, x.key) && Apart(t)
    requires |below| == t.level && s < |t.kids| && rc == InsertNode(t.kids[s], x, below) && rc.node.ref == t.kids[s].ref
    requires Grown(t.kids[s], rc, more) && more !! Foot(t)
    requires rc.split.Some? && |t.keys| != INNER_SLOT_MAX && Holds(PutChild(t, s, rc.node, rc.split.value))
    ensures var r := InsertNode(t, x, below + [y]);
      Placed(t, s, rc, r, more) && r.split.None?
  {
    hide AllHold, Grown, Apart, Foot, FootAll, Holds, LeafRefs, LeafRefsAll, InnerCount, InnerCountAll;
    var r := InsertNode(t, x, below + [y]);
    SpareExtends(t.kids[s], x, below, y);
    KidsAfterTwo(t, s, rc);
    GrownOne(t, s, rc, more, r);
    AllHoldTwo(r.node, r.node);
  }

  lemma {:induction false} PlacedSplit(t: Tree, s: nat, x: Item, below: seq<Node>, y: Node, rc: Inserted, more: set<Node>)
    requires t.Inner? && ShapeOk(t) && s == FindLower(t.keys, x.key) && Apart(t) && |t.kids| == |t.keys| + 1
    requires |below| == t.level && s < |t.kids| && rc == InsertNode(t.kids[s], x, below) && rc.node.ref == t.kids[s].ref
    requires Grown(t.kids[s], rc, more) && more !! Foot(t) && y !in Foot(t) && y !in more
    requires rc.split.Some? && |t.keys| == INNER_SLOT_MAX
    requires var (left, right) := SplitInner(t, s, rc.node, rc.split.value, y); Holds(left) && Holds(right.sibling)
    ensures var r := InsertNode(t, x, below + [y]);
      && Placed(t, s, rc, r, more + {y})
      && r.split == Some(SplitInner(t, s, rc.node, rc.split.value, y).1)
  {
    hide AllHold, Grown, Apart, Foot, FootAll, Holds, LeafRefs, LeafRefsAll, InnerCount, InnerCountAll, SplitInner, CutPoint;
    var r := InsertNode(t, x, below + [y]);
    SpareExtends(t.kids[s], x, below, y);
    KidsAfterTwo(t, s, rc);
    SplitInnerIsCut(t, s, rc.node, rc.split.value, y);
    GrownTwo(t, s, rc, more, r, y, CutPoint(|t.keys|, s) + 1);
    AllHoldTwo(r.node, r.split.value.sibling);
  }

  lemma TwoSlots(childid: seq<Node?>, kids: seq<Tree>)
    requires |kids| == 2 <= |childid| && childid[0] == kids[0].ref && childid[1] == kids[1].ref
    ensures childid[..2] == RefsOf(kids)
  {
  }

  lemma OneSlot(slotkey: seq<Key>, key: Key)
    requires 1 <= |slotkey| && slotkey[0] == key
    ensures slotkey[..1] == [key]
  {
  }

  lemma FootAllocated(t: Tree, r: Inserted, more: set<Node>)
    requires Grown(t, r, more)
    ensures forall n | n in FootAll(After(r)) :: allocated(n)
  {
    AllExisting(After(r));
  }

  /** A pair shown by the tree is found in memory at that leaf and slot. */
  lemma {:induction false} ShownHeld(t: Tree, place: Node, slot: nat, x: Item)
    requires Holds(t) && Shows(t, place, slot, x)
    ensures place in LeafRefs(t) && slot < place.slotuse <= |place.slotkey| && slot < |place.slotdata|
    ensures place.slotkey[slot] == x.key && place.slotdata[slot] == x.data
    decreases t
  {
    if t.Leaf? {
      SlotsAt(place.slotkey, KeysOf(t.items));
      SlotsAt(place.slotdata, DataOf(t.items));
    } else {
      var i :| 0 <= i < |t.kids| && Shows(t.kids[i], place, slot, x);
      KidLevel(t, i);
      ShownHeld(t.kids[i], place, slot, x);
      ShapeAround(t.kids, i, i + 1);
      assert t.kids[i..i + 1] == [t.kids[i]];
      ShapeOne(t.kids[i]);
    }
  }

  /** The position handed back by the descent, seen from the root. */
  lemma {:induction false} InsertShows(t: Tree, few: nat, x: Item, spare: seq<Node>, top: Node)
    requires Valid(t, few) && |spare| > t.Level() && (t.Inner? ==> few > 0)
    ensures ShapeOk(t)
    ensures var r := InsertNode(t, x, spare);
      && (r.done ==> Shows(GrowRoot(r, top), r.place, r.slot, x))
      && (!r.done ==> ShowsKey(GrowRoot(r, top), r.place, r.slot, x.key))
      && r.node.ref == t.ref
  {
    hide Valid, Shows, HasKey, Contents, IsPut, Neighbours, InsertNode;
    InsertNodeOk(t, few, x, spare);
    var r := InsertNode(t, x, spare);
    if r.split.Some? { RootShows(r, top, x); }
  }

  lemma RootShows(r: Inserted, top: Node, x: Item)
    requires r.split.Some?
    requires Shows(r.node, r.place, r.slot, x) || Shows(r.split.value.sibling, r.place, r.slot, x)
    ensures Shows(GrowRoot(r, top), r.place, r.slot, x)
  {
    var n := GrowRoot(r, top);
    assert n.kids[0] == r.node && n.kids[1] == r.split.value.sibling;
  }

  lemma {:induction false} PositionHolds(n: Tree, place: Node, slot: nat, x: Item, inserted: bool)
    requires Holds(n)
    requires if inserted then Shows(n, place, slot, x) else ShowsKey(n, place, slot, x.key)
    ensures place in LeafRefs(n) && slot < place.slotuse <= |place.slotkey| && slot < |place.slotdata|
    ensures place.slotkey[slot] == x.key && (inserted ==> place.slotdata[slot] == x.data)
  {
    if inserted {
      ShownHeld(n, place, slot, x);
    } else {
      var y: Item :| y.key == x.key && Shows(n, place, slot, y);
      ShownHeld(n, place, slot, y);
    }
  }

  /** All that the descent means for the whole tree. */
  lemma {:induction false} InsertOutcome(root: Option<Tree>, first: Node, x: Item, spare: seq<Node>, r: Inserted, top: Node)
    requires ValidRoot(root) && |spare| > StartOf(root, first).Level() && ShapeOk(StartOf(root, first))
    requires r == InsertNode(StartOf(root, first), x, spare)
    requires !ALLOW_DUPLICATES ==> UniqueKeys(Pairs(root))
    ensures var n := GrowRoot(r, top);
      && Valid(n, 1)
      && (r.done <==> ALLOW_DUPLICATES || !HasKey(Pairs(root), x.key))
      && (r.done ==> IsPut(Contents(n), Pairs(root), x) && Shows(n, r.place, r.slot, x))
      && (!r.done ==> root == Some(n) && Contents(n) == Pairs(root) && ShowsKey(n, r.place, r.slot, x.key))
      && |Contents(n)| == |Pairs(root)| + (if r.done then 1 else 0)
      && (!ALLOW_DUPLICATES ==> UniqueKeys(Contents(n)))
  {
    hide Valid, HasKey, UniqueKeys, IsPut, Shows, ShowsKey, InsertNode, GrowRoot, ShapeOk, Contents;
    var t, few := StartOf(root, first), if root.None? then 0 else 1;
    StartShape(root, first);
    Bounds(t, few);
    InsertStartOk(root, x, first, spare, top);
    InsertShows(t, few, x, spare, top);
    AfterInsert(Pairs(root), Contents(GrowRoot(r, top)), x, r.done);
  }

  lemma AfterInsert(before: seq<Item>, after: seq<Item>, x: Item, inserted: bool)
    requires inserted <==> ALLOW_DUPLICATES || !HasKey(before, x.key)
    requires if inserted then IsPut(after, before, x) else after == before
    requires !ALLOW_DUPLICATES ==> UniqueKeys(before)
    ensures |after| == |before| + if inserted then 1 else 0
    ensures !ALLOW_DUPLICATES ==> UniqueKeys(after)
  {
    hide UniqueKeys, HasKey, IsPut;
    if inserted {
      PutLength(after, before, x);
      if !ALLOW_DUPLICATES { UniquePut(after, before, x); }
    }
  }

  lemma UniquePut(all: seq<Item>, s: seq<Item>, x: Item)
    requires IsPut(all, s, x) && UniqueKeys(s) && !HasKey(s, x.key)
    ensures UniqueKeys(all)
  {
    var p :| 0 <= p <= |s| && all == PutAt(s, p, x);
    forall i, j | 0 <= i < j < |all| ensures all[i].key != all[j].key {
      assert all[i] == if i < p then s[i] else if i == p then x else s[i - 1];
      assert all[j] == if j < p then s[j] else if j == p then x else s[j - 1];
    }
  }

  lemma PutLength(all: seq<Item>, s: seq<Item>, x: Item)
    requires IsPut(all, s, x)
    ensures |all| == |s| + 1
  {
  }

  /** Erasing from a root that is a leaf. */
  lemma {:induction false} LeafErased(t: Tree, key: Key)
    requires t.Leaf? && Valid(t, 1) && Apart(t)
    ensures var r, all := EraseInLeaf(t, key), BTreeErase.EraseOne(Some(t), key);
      && (r.Done? <==> all.1)
      && (r.NotFound? ==> all.0 == Some(t))
      && (r.Done? ==>
            && r.node.Leaf? && r.node.ref == t.ref && (r.node.items == [] <==> all.0.None?)
            && (r.node.items != [] ==> all.0 == Some(r.node) && Valid(r.node, 1))
            && Foot(r.node) == Foot(t) && LeafRefs(r.node) == LeafRefs(t) && |LeafRefs(t)| == 1
            && InnerCount(r.node) == InnerCount(t) == 0 && Apart(r.node))
  {
    hide Valid;
    EraseOneOk(Some(t), key);
    var r := EraseInLeaf(t, key);
    LeafShape(t);
    if r.Done? { LeafShape(r.node); }
  }

  /** Nothing was split below: the node is as it was, with one child changed in place. */
  lemma {:induction false} HoldsUnsplit(t: Tree, s: nat, rc: Inserted)
    requires t.Inner? && s < |t.kids| && rc.split.None? && rc.node.ref == t.kids[s].ref
    requires HoldsBeside(t, s) && AllHold(After(rc))
    ensures Holds(Inner(t.ref, t.level, t.keys, t.kids[s := rc.node]))
    ensures AllHold([Inner(t.ref, t.level, t.keys, t.kids[s := rc.node])])
  {
    hide AllHold, InnerHolds, Holds;
    var n := Inner(t.ref, t.level, t.keys, t.kids[s := rc.node]);
    HoldsKids(t, s, rc);
    KidsAfterOne(t, s, rc);
    HoldsTop(n);
    AllHoldTwo(n, n);
  }

  lemma LeavesHeld(r: Inserted)
    requires r.node.Leaf? && LeafHolds(r.node.ref, r.node.items)
    requires r.split.Some? ==> r.split.value.sibling.Leaf? && LeafHolds(r.split.value.sibling.ref, r.split.value.sibling.items)
    ensures AllHold(After(r))
  {
    if r.split.Some? { AllHoldTwo(r.node, r.split.value.sibling); } else { AllHoldTwo(r.node, r.node); }
  }

  /** The upper half of a full leaf copied to a new one. */
  method MoveLeafTail(leaf: Node, newleaf: Node, ghost items: seq<Item>) returns (newkey: Key)
    requires LeafHolds(leaf, items) && leaf != newleaf && |items| == LEAF_SLOT_MAX
    requires newleaf.level == 0 && |newleaf.slotkey| == |newleaf.slotdata| == LEAF_SLOT_MAX
    modifies leaf`slotuse, newleaf`slotkey, newleaf`slotdata, newleaf`slotuse
    ensures LeafHolds(leaf, items[..|items| / 2]) && LeafHolds(newleaf, items[|items| / 2..])
    ensures newkey == LastKey(items[..|items| / 2])
  {
    hide Overwritten;
    var mid := leaf.slotuse / 2;
    newleaf.slotuse := leaf.slotuse - mid;
    ItemsSliced(items, mid, |items|);
    ItemsSliced(items, 0, mid);
    EmptyPrefix(newleaf.slotkey);
    EmptyPrefix(newleaf.slotdata);
    SlotsAppended(newleaf.slotkey, [], leaf.slotkey, KeysOf(items), mid, |items|);
    SlotsAppended(newleaf.slotdata, [], leaf.slotdata, DataOf(items), mid, |items|);
    newleaf.CopyLeafSlots(0, leaf, mid, newleaf.slotuse);
    SlotsPrefix(leaf.slotkey, KeysOf(items), mid);
    SlotsPrefix(leaf.slotdata, DataOf(items), mid);
    leaf.slotuse := mid;
    LastSlot(leaf, items[..mid]);
    newkey := leaf.slotkey[leaf.slotuse - 1];
  }

  /** The separator after leaf `s` becomes that leaf's last key; past the last separator the slot is unused. */
  method RefreshSeparator(inner: Node, s: nat, ghost keys: seq<Key>, ghost refs: seq<Node?>, ghost leaf: Tree)
    requires InnerHolds(inner, 1, keys, refs) && s <= |keys| < INNER_SLOT_MAX
    requires leaf.Leaf? && leaf.items != [] && LeafHolds(leaf.ref, leaf.items) && refs[s] == leaf.ref != inner
    modifies inner`slotkey
    ensures InnerHolds(inner, 1, if s < |keys| then keys[s := LastKey(leaf.items)] else keys, refs)
  {
    SlotsAt(inner.childid, refs);
    var child := inner.childid[s];
    LastSlot(child, leaf.items);
    FixedPrefix(inner.slotkey, keys, s, LastKey(leaf.items));
    inner.slotkey := inner.slotkey[s := child.slotkey[child.slotuse - 1]];
  }

  ghost function CousinFoot(c: Cousin): set<Node> {
    if c.node.Some? then Foot(c.node.value) else {}
  }

  /** A cousin lies in memory beside the current subtree. */
  ghost predicate CousinHeld(t: Tree, c: Cousin)
    reads CousinFoot(c)`level, CousinFoot(c)`slotuse, CousinFoot(c)`slotkey, CousinFoot(c)`childid, CousinFoot(c)`slotdata
  {
    c.node.Some? ==> Holds(c.node.value) && Foot(c.node.value) !! Foot(t)
  }

  /** The pointers handed down with child `s`. */
  ghost predicate ChildPoints(t: Tree, s: nat, gl: Cousin, gr: Cousin,
                              left: Node?, right: Node?, leftparent: Node?, rightparent: Node?) {
    && t.Inner? && s < |t.kids|
    && (gl.node.Some? ==> gl.node.value.Inner? && 0 < |gl.node.value.keys| < |gl.node.value.kids|)
    && (gr.node.Some? ==> gr.node.value.Inner? && gr.node.value.kids != [])
    && Points(LeftOf(t, s, gl), left, leftparent)
    && Points(RightOf(t, s, gr), right, rightparent)
  }

  lemma CousinsExisting(gl: Cousin, gr: Cousin)
    ensures forall n | n in CousinFoot(gl) :: allocated(n)
    ensures forall n | n in CousinFoot(gr) :: allocated(n)
  {
    if gl.node.Some? { Existing(gl.node.value); }
    if gr.node.Some? { Existing(gr.node.value); }
  }

  lemma {:induction false} CousinsBeside(t: Tree, s: nat, gl: Cousin, gr: Cousin)
    requires t.Inner? && s < |t.kids| && Apart(t) && CousinHeld(t, gl) && CousinHeld(t, gr)
    ensures forall n | n in Foot(t.kids[s]) :: n !in CousinFoot(gl) && n !in CousinFoot(gr)
  {
    hide Foot, Holds, Apart;
    BesideFrame(t, s);
  }

  /** The cousins of a child lie beside it. */
  lemma {:induction false} ChildCousinsHeld(t: Tree, few: nat, s: nat, gl: Cousin, gr: Cousin)
    requires Descent(t, few, gl, gr) && t.Inner? && Holds(t) && s <= |t.keys|
    requires CousinHeld(t, gl) && CousinHeld(t, gr)
    ensures gl.node.Some? ==> gl.node.value.Inner? && 0 < |gl.node.value.keys| < |gl.node.value.kids|
    ensures gr.node.Some? ==> gr.node.value.Inner? && gr.node.value.kids != []
    ensures s < |t.kids|
    ensures CousinHeld(t.kids[s], LeftOf(t, s, gl)) && CousinHeld(t.kids[s], RightOf(t, s, gr))
  {
    hide Valid, Apart, CousinOk, Foot, Holds;
    Bounds(t, few);
    ChildDescent(t, few, gl, gr, s);
    BesideFrame(t, s);
    if s > 0 { KidLevel(t, s - 1); } else if gl.node.Some? { CousinKid(t, s, gl.node.value, |gl.node.value.keys| - 1); }
    if s < |t.keys| { KidLevel(t, s + 1); } else if gr.node.Some? { CousinKid(t, s, gr.node.value, 0); }
  }

  lemma {:induction false} CousinKid(t: Tree, s: nat, u: Tree, k: nat)
    requires t.Inner? && s < |t.kids| && u.Inner? && k < |u.kids|
    requires Holds(u) && Foot(u) !! Foot(t)
    ensures Holds(u.kids[k]) && Foot(u.kids[k]) !! Foot(t.kids[s])
  {
    KidLevel(u, k);
    FootAt(u.kids, k);
    FootAt(t.kids, s);
  }

  lemma Regrouped(pre: seq<Node>, a: seq<Node>, l: seq<Node>, b: seq<Node>, post: seq<Node>)
    ensures pre + a + l + (b + post) == pre + (a + l + b) + post
  {
  }

  lemma RefOutside(t: Tree, c: Cousin)
    requires CousinHeld(t, c)
    ensures t.ref !in CousinFoot(c)
  {
    assert t.ref in Foot(t);
  }

  /** The removal from the slot arrays of a leaf, and whether its last key changed. */
  method EraseFromLeaf(leaf: Node, key: Key, ghost t: Tree, ghost few: nat) returns (found: bool, update: bool, lastkey: Key)
    requires t.Leaf? && Holds(t) && leaf == t.ref && Valid(t, few)
    modifies leaf`slotkey, leaf`slotdata, leaf`slotuse
    ensures var r := EraseInLeaf(t, key);
      && (found <==> r.Done?)
      && (!found ==> Holds(t))
      && (found ==> Holds(r.node) && (update <==> r.last.Some?) && (update ==> lastkey == r.last.value))
  {
    update, lastkey := false, key;
    var slot := FindLowerSlot(leaf, key, KeysOf(t.items));
    SlotsAt(leaf.slotkey, KeysOf(t.items));
    if slot >= leaf.slotuse || leaf.slotkey[slot] != key {
      return false, update, lastkey;
    }
    DropLeafSlot(leaf, slot, t.items);
    ghost var items := t.items[..slot] + t.items[slot + 1..];
    found := true;
    if slot == leaf.slotuse && leaf.slotuse >= 1 {
      LastSlot(leaf, items);
      update, lastkey := true, leaf.slotkey[leaf.slotuse - 1];
    }
  }

  /** A root in memory, and what its only child offers when it has no key left. */
  lemma {:induction false} SingleChild(n: Tree)
    requires n.Inner? && Valid(n, 0) && Apart(n) && Holds(n)
    ensures n.ref.level != 0 && n.ref.slotuse == |n.keys| && n.kids != [] && |n.ref.childid| > 0
    ensures n.keys != [] ==> Valid(n, 1)
    ensures n.keys == [] ==>
      && n.ref.childid[0] == n.kids[0].ref && Holds(n.kids[0]) && Valid(n.kids[0], 1) && Apart(n.kids[0])
      && LeafRefs(n) == LeafRefs(n.kids[0]) && InnerCount(n) == 1 + InnerCount(n.kids[0])
  {
    hide Holds, Apart;
    Bounds(n, 0);
    HoldsTop(n);
    LeafOrInner(n);
    TrimRootOk(n);
    KidLevel(n, 0);
    FootAt(n.kids, 0);
    ApartTop(n);
    SlotsAt(n.ref.childid, RefsOf(n.kids));
    if n.keys == [] {
      assert n.kids == [n.kids[0]];
      ShapeOne(n.kids[0]);
      LeafRefsTop(n);
    }
  }

  lemma ApartTop(t: Tree)
    requires Apart(t)
    ensures t.Inner? ==> AllApart(t.kids)
  {
  }

  lemma NodeFacts(t: Tree, few: nat, key: Key, n: Tree, last: Option<Key>)
    requires few == 1 && ErasedOk(t, few, key, Done(n, last)) && BTreeTree.Valid(t, few)
    ensures n.ref == t.ref && BTreeTree.Valid(n, 0) && (n.Leaf? <==> t.Leaf?)
  {
    Bounds(t, few);
    Bounds(n, 0);
  }

  lemma {:induction false} RefInside(t: Tree)
    ensures t.ref in Foot(t)
  {
  }

  /** The slot to descend into, from memory. */
  method SlotInMemory(inner: Node, key: Key, ghost t: Tree, ghost few: nat) returns (slot: nat)
    requires t.Inner? && Holds(t) && Valid(t, few) && inner == t.ref
    ensures slot == DescentSlot(t, few, key)
    ensures slot < |inner.childid| && inner.childid[slot] == t.kids[slot].ref
    ensures slot <= inner.slotuse == |t.keys|
  {
    hide Valid, AllHold;
    Bounds(t, few);
    HoldsTop(t);
    KidsSorted(t.level, t.kids, -1);
    SeparatorsSorted(t.keys, t.kids);
    slot := FindLowerSlot(inner, key, t.keys);
    SlotsAt(inner.childid, RefsOf(t.kids));
  }

  /** The neighbours handed down: beside the slot, or under the neighbours of this node. */
  method ChildNeighbours(inner: Node, slot: nat, left: Node?, right: Node?, leftparent: Node?, rightparent: Node?,
                         ghost t: Tree, ghost few: nat, ghost gl: Cousin, ghost gr: Cousin)
    returns (myleft: Node?, myright: Node?, myleftparent: Node?, myrightparent: Node?)
    requires t.Inner? && Holds(t) && Descent(t, few, gl, gr) && inner == t.ref && slot <= |t.keys|
    requires CousinHeld(t, gl) && CousinHeld(t, gr)
    requires Points(gl, left, leftparent) && Points(gr, right, rightparent)
    ensures ChildPoints(t, slot, gl, gr, myleft, myright, myleftparent, myrightparent)
  {
    hide Valid, AllHold, Apart;
    Bounds(t, few);
    ChildDescent(t, few, gl, gr, slot);
    HoldsTop(t);
    SlotsAt(inner.childid, RefsOf(t.kids));
    if slot == 0 {
      if left == null {
        myleft := null;
      } else {
        HoldsTop(gl.node.value);
        SlotsAt(left.childid, RefsOf(gl.node.value.kids));
        myleft := left.childid[left.slotuse - 1];
      }
      myleftparent := leftparent;
    } else {
      myleft, myleftparent := inner.childid[slot - 1], inner;
    }
    if slot == inner.slotuse {
      if right == null {
        myright := null;
      } else {
        HoldsTop(gr.node.value);
        SlotsAt(right.childid, RefsOf(gr.node.value.kids));
        myright := right.childid[0];
      }
      myrightparent := rightparent;
    } else {
      myright, myrightparent := inner.childid[slot + 1], inner;
    }
  }

  /** A changed last key goes into the separator after the child, or is passed on. */
  method SetLastKey(inner: Node, slot: nat, update: bool, lastkey: Key, ghost t: Tree, ghost c: Tree, ghost last: Option<Key>)
    returns (passedOn: bool)
    requires t.Inner? && inner == t.ref && slot < |t.kids| && |t.kids| == |t.keys| + 1
    requires HoldsBeside(t, slot) && Holds(c) && c.ref == t.kids[slot].ref
    requires inner !in FootAll(t.kids[..slot]) && inner !in FootAll(t.kids[slot + 1..]) && inner !in Foot(c)
    requires update <==> last.Some?
    requires update ==> lastkey == last.value
    modifies inner`slotkey
    ensures Holds(WithChild(t, slot, c, last))
    ensures passedOn <==> update && slot == |t.keys|
  {
    hide Holds, AllHold, Foot, RefsOf;
    ghost var n := WithChild(t, slot, c, last);
    AllExisting(t.kids[..slot]);
    AllExisting(t.kids[slot + 1..]);
    Existing(c);
    assert n.kids[..slot] == t.kids[..slot] && n.kids[slot + 1..] == t.kids[slot + 1..];
    SameRefs(t.kids, slot, c);
    if update && slot < inner.slotuse {
      PrefixSet(inner.slotkey, t.keys, slot, lastkey);
      inner.slotkey := inner.slotkey[slot := lastkey];
      passedOn := false;
    } else {
      passedOn := update;
    }
    HoldsAround(n, slot);
  }

  lemma {:induction false} KidLevel(t: Tree, s: nat)
    requires t.Inner? && Holds(t) && s < |t.kids|
    ensures Holds(t.kids[s]) && t.kids[s].ref.level == t.kids[s].Level()
    ensures t.kids[s].ref.level == 0 <==> t.kids[s].Leaf?
    ensures t.kids[s].ref.slotuse == t.kids[s].Use()
  {
    AllHoldAround(t.kids, s, s + 1);
    assert t.kids[s..s + 1] == [t.kids[s]];
    AllHoldTwo(t.kids[s], t.kids[s]);
  }

  lemma FixedPrefix(s: seq<Key>, keys: seq<Key>, i: nat, v: Key)
    requires i <= |keys| <= |s| && i < |s| && s[..|keys|] == keys
    ensures s[i := v][..|keys|] == if i < |keys| then keys[i := v] else keys
  {
  }
}
