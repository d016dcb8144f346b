/** Carrying out a rebalancing action in memory: the parent, two of its children, and nothing else. */
module BTreeRepair {
  import opened BTreeNode
  import opened BTreeTree
  import opened BTreeBalance
  import opened BTreeErase
  import opened BTreeShape
  import opened BTreeMemory

  /** An inner node in memory, taken apart around children `i` and `i + 1`. */
  lemma {:induction false} HoldsPair(t: Tree, i: nat)
    requires t.Inner? && i + 1 < |t.kids|
    ensures Holds(t) <==>
              && InnerHolds(t.ref, t.level, t.keys, RefsOf(t.kids))
              && AllHold(t.kids[..i]) && Holds(t.kids[i]) && Holds(t.kids[i + 1]) && AllHold(t.kids[i + 2..])
  {
    hide InnerHolds;
    AllHoldAround(t.kids, i, i + 2);
    AllHoldTwo(t.kids[i], t.kids[i + 1]);
    assert t.kids[i..i + 2] == [t.kids[i], t.kids[i + 1]];
  }

  ghost predicate Outside(p: Node, left: Node, right: Node, kids: seq<Tree>) {
    p !in FootAll(kids) && left !in FootAll(kids) && right !in FootAll(kids)
  }

  /** The nodes written by a repair are apart from everything the rest of the parent holds. */
  lemma {:induction false} PairFrame(t: Tree, i: nat)
    requires t.Inner? && Apart(t) && i + 1 < |t.kids|
    ensures var x, y := t.kids[i], t.kids[i + 1];
      && x.ref != y.ref && t.ref != x.ref && t.ref != y.ref
      && PairApart(x, y) && t.ref !in Foot(x) && t.ref !in Foot(y)
      && Outside(t.ref, x.ref, y.ref, t.kids[..i]) && Outside(t.ref, x.ref, y.ref, t.kids[i + 2..])
      && (x.Inner? ==> Outside(t.ref, x.ref, y.ref, x.kids))
      && (y.Inner? ==> Outside(t.ref, x.ref, y.ref, y.kids))
      && x.ref in Foot(t) && y.ref in Foot(t)
  {
    KidsPair(t, i);
    ShapeAround(t.kids, i, i + 2);
    ShapeTwo(t.kids[i], t.kids[i + 1]);
  }

  /** Two children with the same memory nodes as before, and a new separator. */
  lemma {:induction false} HoldsPut(t: Tree, i: nat, r: Shifted)
    requires t.Inner? && i < |t.keys| && |t.kids| == |t.keys| + 1
    requires r.left.ref == t.kids[i].ref && r.right.ref == t.kids[i + 1].ref
    requires InnerHolds(t.ref, t.level, t.keys[i := r.separator], RefsOf(t.kids))
    requires AllHold(t.kids[..i]) && Holds(r.left) && Holds(r.right) && AllHold(t.kids[i + 2..])
    ensures Holds(PutPair(t, i, r))
  {
    hide InnerHolds, Holds;
    var n := PutPair(t, i, r);
    HoldsPair(n, i);
    assert n.kids[..i] == t.kids[..i] && n.kids[i + 2..] == t.kids[i + 2..];
    assert RefsOf(n.kids) == RefsOf(t.kids);
  }

  lemma PrefixSet<T>(s: seq<T>, keys: seq<T>, i: nat, v: T)
    requires i < |keys| <= |s| && s[..|keys|] == keys
    ensures s[i] == keys[i] && s[i := v][..|keys|] == keys[i := v]
  {
  }

  /** Children shared out again between two inner nodes. */
  lemma {:induction false} SharedOut(c1: seq<Tree>, c2: seq<Tree>, k: nat)
    requires AllHold(c1) && AllHold(c2) && k <= |c1| + |c2|
    ensures AllHold((c1 + c2)[..k]) && AllHold((c1 + c2)[k..])
  {
    AllHoldConcat(c1, c2);
    assert c1 + c2 == (c1 + c2)[..k] + (c1 + c2)[k..];
    AllHoldConcat((c1 + c2)[..k], (c1 + c2)[k..]);
  }

  lemma ShiftedRefsLeft(c1: seq<Tree>, c2: seq<Tree>, n: nat)
    requires n <= |c2|
    ensures RefsOf(c1 + c2[..n]) == RefsOf(c1) + RefsOf(c2)[..n] && RefsOf(c2[n..]) == RefsOf(c2)[n..]
    ensures (c1 + c2)[..|c1| + n] == c1 + c2[..n] && (c1 + c2)[|c1| + n..] == c2[n..]
  {
  }

  lemma ShiftedRefsRight(c1: seq<Tree>, c2: seq<Tree>, k: nat)
    requires k <= |c1|
    ensures RefsOf(c1[..k]) == RefsOf(c1)[..k] && RefsOf(c1[k..] + c2) == RefsOf(c1)[k..] + RefsOf(c2)
    ensures (c1 + c2)[..k] == c1[..k] && (c1 + c2)[k..] == c1[k..] + c2
  {
  }

  /** What both shifts ask of the parent and of the two children at `i`. */
  ghost predicate PairInMemory(t: Tree, i: nat, left: Node, right: Node, parent: Node)
    reads Foot(t)`level, Foot(t)`slotuse, Foot(t)`slotkey, Foot(t)`childid, Foot(t)`slotdata
  {
    && t.Inner? && Holds(t) && Apart(t)
    && |t.kids| == |t.keys| + 1 && i < |t.keys|
    && parent == t.ref && left == t.kids[i].ref && right == t.kids[i + 1].ref
    && t.kids[i].Level() == t.kids[i + 1].Level()
    && CanShift(t.kids[i], t.kids[i + 1])
  }

  lemma LeafOrInner(t: Tree)
    requires Holds(t)
    ensures t.ref.level == 0 <==> t.Leaf?
    ensures t.ref.level == t.Level() && t.ref.slotuse == t.Use()
  {
  }

  /** Two neighbours in memory beside a parent that names them. */
  ghost predicate PairHeld(x: Tree, y: Tree, parent: Node)
    reads Foot(x)`level, Foot(x)`slotuse, Foot(x)`slotkey, Foot(x)`childid, Foot(x)`slotdata
    reads Foot(y)`level, Foot(y)`slotuse, Foot(y)`slotkey, Foot(y)`childid, Foot(y)`slotdata
  {
    && Holds(x) && Holds(y) && PairApart(x, y)
    && parent !in Foot(x) && parent !in Foot(y)
    && x.Level() == y.Level() && CanShift(x, y)
  }

  method PairShiftsLeft(left: Node, right: Node, parent: Node, parentslot: nat, ghost x: Tree, ghost y: Tree)
    requires PairHeld(x, y, parent) && left == x.ref && right == y.ref
    requires parentslot < parent.slotuse <= |parent.slotkey|
    requires x.Use() + 2 <= y.Use()
    modifies left`slotkey, left`slotdata, left`childid, left`slotuse
    modifies right`slotkey, right`slotdata, right`childid, right`slotuse, parent`slotkey
    ensures var r := ShiftLeft(x, old(parent.slotkey[parentslot]), y);
      && Holds(r.left) && Holds(r.right)
      && parent.slotkey == old(parent.slotkey)[parentslot := r.separator]
  {
    hide AllHold, Overwritten, LeafHolds, InnerHolds;
    HoldsTop(x);
    HoldsTop(y);
    LeafOrInner(x);
    if left.level == 0 {
      ghost var r := ShiftLeft(x, parent.slotkey[parentslot], y);
      var _, _ := ShiftLeftLeaf(left, right, parent, parentslot, x.items, y.items);
      HoldsTop(r.left);
      HoldsTop(r.right);
    } else {
      InnerPairShiftsLeft(left, right, parent, parentslot, x, y);
    }
  }

  lemma InnerShiftLeftForm(x: Tree, m: Key, y: Tree)
    requires x.Inner? && CanShift(x, y) && x.Use() + 2 <= y.Use()
    ensures var n := (|y.keys| - |x.keys|) / 2;
      ShiftLeft(x, m, y) == Shifted(Inner(x.ref, x.level, x.keys + [m] + y.keys[..n - 1], x.kids + y.kids[..n]),
                                    y.keys[n - 1], Inner(y.ref, y.level, y.keys[n..], y.kids[n..]))
  {
  }

  lemma InnerShiftRightForm(x: Tree, m: Key, y: Tree)
    requires x.Inner? && CanShift(x, y) && y.Use() + 2 <= x.Use()
    ensures var k := |x.keys| - (|x.keys| - |y.keys|) / 2;
      ShiftRight(x, m, y) == Shifted(Inner(x.ref, x.level, x.keys[..k], x.kids[..k + 1]), x.keys[k],
                                     Inner(y.ref, y.level, x.keys[k + 1..] + [m] + y.keys, x.kids[k + 1..] + y.kids))
  {
  }

  method InnerPairShiftsLeft(left: Node, right: Node, parent: Node, parentslot: nat, ghost x: Tree, ghost y: Tree)
    requires PairHeld(x, y, parent) && left == x.ref && right == y.ref
    requires parentslot < parent.slotuse <= |parent.slotkey|
    requires x.Use() + 2 <= y.Use() && x.Inner?
    modifies left`slotkey, left`childid, left`slotuse
    modifies right`slotkey, right`childid, right`slotuse, parent`slotkey
    ensures var r := ShiftLeft(x, old(parent.slotkey[parentslot]), y);
      && Holds(r.left) && Holds(r.right)
      && parent.slotkey == old(parent.slotkey)[parentslot := r.separator]
  {
    hide Holds, InnerHolds, ShiftLeft, AllHold, RefsOf;
    HoldsTop(x);
    HoldsTop(y);
    InnerShiftLeftForm(x, parent.slotkey[parentslot], y);
    ghost var r, n := ShiftLeft(x, parent.slotkey[parentslot], y), (|y.keys| - |x.keys|) / 2;
    ShiftedRefsLeft(x.kids, y.kids, n);
    AllExisting(x.kids);
    AllExisting(y.kids);
    ShiftLeftInner(left, right, parent, parentslot, x.level, x.keys, RefsOf(x.kids), y.keys, RefsOf(y.kids));
    SharedOut(x.kids, y.kids, |x.kids| + n);
    HoldsTop(r.left);
    HoldsTop(r.right);
  }

  method PairShiftsRight(left: Node, right: Node, parent: Node, parentslot: nat, ghost x: Tree, ghost y: Tree)
    requires PairHeld(x, y, parent) && left == x.ref && right == y.ref
    requires parentslot < |parent.slotkey|
    requires y.Use() + 2 <= x.Use()
    modifies left`slotuse, right`slotkey, right`slotdata, right`childid, right`slotuse, parent`slotkey
    ensures var r := ShiftRight(x, old(parent.slotkey[parentslot]), y);
      && Holds(r.left) && Holds(r.right)
      && parent.slotkey == old(parent.slotkey)[parentslot := r.separator]
  {
    hide AllHold, Overwritten, LeafHolds, InnerHolds;
    HoldsTop(x);
    HoldsTop(y);
    LeafOrInner(x);
    if left.level == 0 {
      ghost var r := ShiftRight(x, parent.slotkey[parentslot], y);
      ShiftRightLeaf(left, right, parent, parentslot, x.items, y.items);
      HoldsTop(r.left);
      HoldsTop(r.right);
    } else {
      InnerPairShiftsRight(left, right, parent, parentslot, x, y);
    }
  }

  method InnerPairShiftsRight(left: Node, right: Node, parent: Node, parentslot: nat, ghost x: Tree, ghost y: Tree)
    requires PairHeld(x, y, parent) && left == x.ref && right == y.ref
    requires parentslot < |parent.slotkey|
    requires y.Use() + 2 <= x.Use() && x.Inner?
    modifies left`slotuse, right`slotkey, right`childid, right`slotuse, parent`slotkey
    ensures var r := ShiftRight(x, old(parent.slotkey[parentslot]), y);
      && Holds(r.left) && Holds(r.right)
      && parent.slotkey == old(parent.slotkey)[parentslot := r.separator]
  {
    hide Holds, InnerHolds, ShiftRight, AllHold, RefsOf;
    HoldsTop(x);
    HoldsTop(y);
    InnerShiftRightForm(x, parent.slotkey[parentslot], y);
    ghost var r, k := ShiftRight(x, parent.slotkey[parentslot], y), |x.keys| - (|x.keys| - |y.keys|) / 2;
    ShiftedRefsRight(x.kids, y.kids, k + 1);
    AllExisting(x.kids);
    AllExisting(y.kids);
    ShiftRightInner(left, right, parent, parentslot, x.level, x.keys, RefsOf(x.kids), y.keys, RefsOf(y.kids));
    SharedOut(x.kids, y.kids, k + 1);
    HoldsTop(r.left);
    HoldsTop(r.right);
  }

  method TakeFromRight(left: Node, right: Node, parent: Node, parentslot: nat, ghost t: Tree)
    requires PairInMemory(t, parentslot, left, right, parent)
    requires t.kids[parentslot].Use() + 2 <= t.kids[parentslot + 1].Use()
    modifies left`slotkey, left`slotdata, left`childid, left`slotuse
    modifies right`slotkey, right`slotdata, right`childid, right`slotuse, parent`slotkey
    ensures Holds(PutPair(t, parentslot, ShiftLeft(t.kids[parentslot], t.keys[parentslot], t.kids[parentslot + 1])))
  {
    hide Holds, Apart, ShiftLeft;
    ghost var i, x, y := parentslot, t.kids[parentslot], t.kids[parentslot + 1];
    ghost var r := ShiftLeft(x, t.keys[i], y);
    HoldsPair(t, i);
    PairFrame(t, i);
    AllExisting(t.kids[..i]);
    AllExisting(t.kids[i + 2..]);
    PrefixSet(parent.slotkey, t.keys, i, r.separator);
    PairShiftsLeft(left, right, parent, parentslot, x, y);
    HoldsPut(t, i, r);
  }

  method TakeFromLeft(left: Node, right: Node, parent: Node, parentslot: nat, ghost t: Tree)
    requires PairInMemory(t, parentslot, left, right, parent)
    requires t.kids[parentslot + 1].Use() + 2 <= t.kids[parentslot].Use()
    modifies left`slotuse, right`slotkey, right`slotdata, right`childid, right`slotuse, parent`slotkey
    ensures Holds(PutPair(t, parentslot, ShiftRight(t.kids[parentslot], t.keys[parentslot], t.kids[parentslot + 1])))
  {
    hide Holds, Apart, ShiftRight;
    ghost var i, x, y := parentslot, t.kids[parentslot], t.kids[parentslot + 1];
    ghost var r := ShiftRight(x, t.keys[i], y);
    HoldsPair(t, i);
    PairFrame(t, i);
    AllExisting(t.kids[..i]);
    AllExisting(t.kids[i + 2..]);
    PrefixSet(parent.slotkey, t.keys, i, r.separator);
    PairShiftsRight(left, right, parent, parentslot, x, y);
    HoldsPut(t, i, r);
  }

  /** An inner node in memory except for its child `s`. */
  ghost predicate HoldsBeside(t: Tree, s: nat)
    requires t.Inner? && s < |t.kids|
    reads t.ref`level, t.ref`slotuse, t.ref`slotkey, t.ref`childid
    reads FootAll(t.kids[..s])`level, FootAll(t.kids[..s])`slotuse, FootAll(t.kids[..s])`slotkey,
      FootAll(t.kids[..s])`childid, FootAll(t.kids[..s])`slotdata
    reads FootAll(t.kids[s + 1..])`level, FootAll(t.kids[s + 1..])`slotuse, FootAll(t.kids[s + 1..])`slotkey,
      FootAll(t.kids[s + 1..])`childid, FootAll(t.kids[s + 1..])`slotdata
  {
    InnerHolds(t.ref, t.level, t.keys, RefsOf(t.kids)) && AllHold(t.kids[..s]) && AllHold(t.kids[s + 1..])
  }

  lemma {:induction false} HoldsAround(t: Tree, s: nat)
    requires t.Inner? && s < |t.kids|
    ensures Holds(t) <==> HoldsBeside(t, s) && Holds(t.kids[s])
  {
    hide InnerHolds;
    AllHoldAround(t.kids, s, s + 1);
    assert t.kids[s..s + 1] == [t.kids[s]];
    AllHoldTwo(t.kids[s], t.kids[s]);
  }

  /** The rest of an inner node is apart from child `s`. */
  lemma {:induction false} BesideFrame(t: Tree, s: nat)
    requires t.Inner? && Apart(t) && s < |t.kids|
    ensures t.ref !in Foot(t.kids[s]) && Foot(t.kids[s]) <= Foot(t)
    ensures forall n | n in Foot(t.kids[s]) :: n !in FootAll(t.kids[..s]) && n !in FootAll(t.kids[s + 1..])
    ensures s > 0 ==> Foot(t.kids[s - 1]) !! Foot(t.kids[s])
    ensures s + 1 < |t.kids| ==> Foot(t.kids[s + 1]) !! Foot(t.kids[s])
  {
    ShapeAround(t.kids, s, s + 1);
    assert t.kids[s..s + 1] == [t.kids[s]];
    ShapeOne(t.kids[s]);
    if s > 0 { FootAt(t.kids[..s], s - 1); }
    if s + 1 < |t.kids| { FootAt(t.kids[s + 1..], 0); }
  }

  lemma SameRefs(kids: seq<Tree>, s: nat, c: Tree)
    requires s < |kids| && c.ref == kids[s].ref
    ensures RefsOf(kids[s := c]) == RefsOf(kids)
  {
  }
}
