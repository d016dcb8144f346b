/** What it means that memory holds a tree, and the node operations of rebalancing in place. */
module BTreeMemory {
  import opened BTreeNode
  import opened BTreeItems
  import opened BTreeTree
  import opened BTreeBalance

  function DataOf(s: seq<Item>): (ds: seq<Data>)
    ensures |ds| == |s| && forall i | 0 <= i < |s| :: ds[i] == s[i].data
  {
    seq(|s|, i requires 0 <= i < |s| => s[i].data)
  }

  function RefsOf(kids: seq<Tree>): (refs: seq<Node?>)
    ensures |refs| == |kids| && forall i | 0 <= i < |kids| :: refs[i] == kids[i].ref
  {
    seq(|kids|, i requires 0 <= i < |kids| => kids[i].ref)
  }

  ghost predicate LeafHolds(n: Node, items: seq<Item>)
    reads n`level, n`slotuse, n`slotkey, n`slotdata
  {
    && n.level == 0 && n.slotuse == |items| <= LEAF_SLOT_MAX
    && |n.slotkey| == |n.slotdata| == LEAF_SLOT_MAX
    && n.slotkey[..|items|] == KeysOf(items)
    && n.slotdata[..|items|] == DataOf(items)
  }

  ghost predicate InnerHolds(n: Node, level: nat, keys: seq<Key>, refs: seq<Node?>)
    reads n`level, n`slotuse, n`slotkey, n`childid
  {
    && n.level == level > 0 && n.slotuse == |keys| <= INNER_SLOT_MAX
    && |n.slotkey| == INNER_SLOT_MAX && |n.childid| == INNER_SLOT_MAX + 1
    && |refs| == |keys| + 1
    && n.slotkey[..|keys|] == keys
    && n.childid[..|refs|] == refs
  }

  ghost predicate Holds(t: Tree)
    reads Foot(t)`level, Foot(t)`slotuse, Foot(t)`slotkey, Foot(t)`childid, Foot(t)`slotdata
    decreases t, 0
  {
    match t
    case Leaf(n, items) => LeafHolds(n, items)
    case Inner(n, level, keys, kids) => InnerHolds(n, level, keys, RefsOf(kids)) && AllHold(kids)
  }

  ghost predicate AllHold(kids: seq<Tree>)
    reads FootAll(kids)`level, FootAll(kids)`slotuse, FootAll(kids)`slotkey, FootAll(kids)`childid, FootAll(kids)`slotdata
    decreases kids, 1
  {
    kids == [] || (Holds(kids[0]) && AllHold(kids[1..]))
  }

  lemma {:induction false} AllHoldConcat(a: seq<Tree>, b: seq<Tree>)
    ensures AllHold(a + b) <==> AllHold(a) && AllHold(b)
  {
    if a == [] {
      assert a + b == b;
    } else {
      assert (a + b)[1..] == a[1..] + b;
      AllHoldConcat(a[1..], b);
    }
  }

  lemma {:induction false} AllHoldAround(kids: seq<Tree>, i: nat, j: nat)
    requires i <= j <= |kids|
    ensures AllHold(kids) <==> AllHold(kids[..i]) && AllHold(kids[i..j]) && AllHold(kids[j..])
  {
    assert kids == kids[..i] + kids[i..j] + kids[j..];
    AllHoldConcat(kids[..i] + kids[i..j], kids[j..]);
    AllHoldConcat(kids[..i], kids[i..j]);
  }

  lemma {:induction false} AllHoldTwo(x: Tree, y: Tree)
    ensures AllHold([x, y]) <==> Holds(x) && Holds(y)
    ensures AllHold([x]) <==> Holds(x)
  {
    assert [x, y][1..] == [y] && [y][1..] == [] && [x][1..] == [];
    assert AllHold([y]) <==> Holds(y);
  }

  /** The nodes of a tree at hand exist already; frames depend on it. */
  lemma {:induction false} Existing(t: Tree)
    ensures forall n | n in Foot(t) :: allocated(n)
    decreases t, 0
  {
    if t.Inner? { AllExisting(t.kids); }
  }

  lemma {:induction false} AllExisting(kids: seq<Tree>)
    ensures forall n | n in FootAll(kids) :: allocated(n)
    decreases kids, 1
  {
    if kids != [] {
      Existing(kids[0]);
      AllExisting(kids[1..]);
    }
  }

  /** One step of unfolding. */
  lemma {:induction false} HoldsTop(t: Tree)
    ensures t.Leaf? ==> (Holds(t) <==> LeafHolds(t.ref, t.items))
    ensures t.Inner? ==> (Holds(t) <==> InnerHolds(t.ref, t.level, t.keys, RefsOf(t.kids)) && AllHold(t.kids))
  {
    hide LeafHolds, InnerHolds, AllHold;
  }

  lemma ItemsSliced(a: seq<Item>, i: nat, j: nat)
    requires i <= j <= |a|
    ensures KeysOf(a[i..j]) == KeysOf(a)[i..j] && DataOf(a[i..j]) == DataOf(a)[i..j]
  {
  }

  lemma ItemsJoined(a: seq<Item>, b: seq<Item>)
    ensures KeysOf(a + b) == KeysOf(a) + KeysOf(b) && DataOf(a + b) == DataOf(a) + DataOf(b)
  {
  }

  lemma RefsJoined(a: seq<Tree>, b: seq<Tree>)
    ensures RefsOf(a + b) == RefsOf(a) + RefsOf(b)
  {
  }

  // Slices of slot arrays

  lemma SlotPushed<T>(s: seq<T>, a: seq<T>, v: T)
    requires |a| < |s| && s[..|a|] == a
    ensures s[|a| := v][..|a| + 1] == a + [v]
  {
    assert s[|a| := v][..|a|] == a;
  }

  lemma SlotsAppended<T>(s: seq<T>, a: seq<T>, from: seq<T>, b: seq<T>, i: nat, j: nat)
    requires |a| <= |s| && s[..|a|] == a
    requires i <= j <= |b| <= |from| && from[..|b|] == b && |a| + (j - i) <= |s|
    ensures Overwritten(s, |a|, from[i..j])[..|a| + (j - i)] == a + b[i..j]
  {
    forall k | 0 <= k < j - i ensures from[i..j][k] == b[i..j][k] {
      assert from[i + k] == from[..|b|][i + k];
    }
  }

  lemma SlotsMoved<T>(s: seq<T>, b: seq<T>, i: nat)
    requires i <= |b| <= |s| && s[..|b|] == b
    ensures Overwritten(s, 0, s[i..|b|])[..|b| - i] == b[i..]
  {
    assert s[i..|b|] == s[..|b|][i..];
  }

  lemma SlotsPrefix<T>(s: seq<T>, b: seq<T>, i: nat)
    requires i <= |b| <= |s| && s[..|b|] == b
    ensures s[..i] == b[..i]
  {
  }

  /** Room of `n` slots in front of `b`, filled with the last `n` of `a`. */
  lemma SlotsPrepended<T>(raised: seq<T>, b: seq<T>, from: seq<T>, a: seq<T>, i: nat)
    requires i <= |a| <= |from| && from[..|a|] == a
    requires |a| - i + |b| <= |raised| && raised[|a| - i..|a| - i + |b|] == b
    ensures Overwritten(raised, 0, from[i..|a|])[..|a| - i + |b|] == a[i..] + b
  {
    assert from[i..|a|] == from[..|a|][i..];
  }

  lemma JoinedSlices<T>(a: seq<T>, b: seq<T>, i: nat)
    requires i < |b|
    ensures a + b[..i] + [b[i]] == a + b[..i + 1]
    ensures b[..i] + [b[i]] == b[..i + 1]
    ensures [b[i]] + b[i + 1..] == b[i..]
  {
  }

  // Operations on inner nodes

  /** The right node's slots go to the left one, with the parent's separator between. */
  method MergeInner(left: Node, right: Node, parent: Node, parentslot: nat,
                    ghost level: nat, ghost k1: seq<Key>, ghost c1: seq<Node?>, ghost k2: seq<Key>, ghost c2: seq<Node?>)
    requires InnerHolds(left, level, k1, c1) && InnerHolds(right, level, k2, c2)
    requires left != right && parent != left && parent != right
    requires parentslot < |parent.slotkey|
    requires |k1| + |k2| < INNER_SLOT_MAX
    modifies left`slotkey, left`childid, left`slotuse, right`slotuse
    ensures InnerHolds(left, level, k1 + [old(parent.slotkey[parentslot])] + k2, c1 + c2)
    ensures right.slotuse == 0
  {
    left.slotkey := left.slotkey[left.slotuse := parent.slotkey[parentslot]];
    left.slotuse := left.slotuse + 1;
    left.CopyInnerSlots(left.slotuse, right, 0, right.slotuse);
    left.slotuse := left.slotuse + right.slotuse;
    left.childid := left.childid[left.slotuse := right.childid[right.slotuse]];
    right.slotuse := 0;
  }

  method ShiftLeftInner(left: Node, right: Node, parent: Node, parentslot: nat,
                        ghost level: nat, ghost k1: seq<Key>, ghost c1: seq<Node?>, ghost k2: seq<Key>, ghost c2: seq<Node?>)
    requires InnerHolds(left, level, k1, c1) && InnerHolds(right, level, k2, c2)
    requires left != right && parent != left && parent != right
    requires parentslot < |parent.slotkey|
    requires |k1| + 2 <= |k2|
    modifies left`slotkey, left`childid, left`slotuse, right`slotkey, right`childid, right`slotuse, parent`slotkey
    ensures var n := (|k2| - |k1|) / 2;
      && InnerHolds(left, level, k1 + [old(parent.slotkey[parentslot])] + k2[..n - 1], c1 + c2[..n])
      && InnerHolds(right, level, k2[n..], c2[n..])
      && parent.slotkey == old(parent.slotkey)[parentslot := k2[n - 1]]
  {
    var shiftnum := (right.slotuse - left.slotuse) / 2;
    InnerTakesFront(left, right, parent.slotkey[parentslot], shiftnum, level, k1, c1, k2, c2);
    parent.slotkey := parent.slotkey[parentslot := right.slotkey[shiftnum - 1]];
    InnerDropsFront(right, shiftnum, level, k2, c2);
  }

  /** The separator and then `shiftnum - 1` slots of the right node are put behind the left node's. */
  method InnerTakesFront(left: Node, right: Node, separator: Key, shiftnum: nat,
                         ghost level: nat, ghost k1: seq<Key>, ghost c1: seq<Node?>, ghost k2: seq<Key>, ghost c2: seq<Node?>)
    requires InnerHolds(left, level, k1, c1) && InnerHolds(right, level, k2, c2) && left != right
    requires 0 < shiftnum <= |k2| && |k1| + shiftnum <= INNER_SLOT_MAX
    modifies left`slotkey, left`childid, left`slotuse
    ensures InnerHolds(left, level, k1 + [separator] + k2[..shiftnum - 1], c1 + c2[..shiftnum])
  {
    hide Overwritten;
    SlotPushed(left.slotkey, k1, separator);
    left.slotkey := left.slotkey[left.slotuse := separator];
    left.slotuse := left.slotuse + 1;
    SlotsAppended(left.slotkey, k1 + [separator], right.slotkey, k2, 0, shiftnum - 1);
    SlotsAppended(left.childid, c1, right.childid, c2, 0, shiftnum - 1);
    left.CopyInnerSlots(left.slotuse, right, 0, shiftnum - 1);
    left.slotuse := left.slotuse + shiftnum - 1;
    SlotPushed(left.childid, c1 + c2[..shiftnum - 1], right.childid[shiftnum - 1]);
    JoinedSlices(c1, c2, shiftnum - 1);
    left.childid := left.childid[left.slotuse := right.childid[shiftnum - 1]];
  }

  /** The node's first `shiftnum` slots are overwritten by the rest. */
  method InnerDropsFront(n: Node, shiftnum: nat, ghost level: nat, ghost keys: seq<Key>, ghost refs: seq<Node?>)
    requires InnerHolds(n, level, keys, refs) && shiftnum <= |keys|
    modifies n`slotkey, n`childid, n`slotuse
    ensures InnerHolds(n, level, keys[shiftnum..], refs[shiftnum..])
  {
    hide Overwritten;
    n.slotuse := n.slotuse - shiftnum;
    SlotsMoved(n.slotkey, keys, shiftnum);
    InnerTail(n.childid, refs, shiftnum);
    n.CopyInnerSlots(0, n, shiftnum, n.slotuse);
    n.childid := n.childid[n.slotuse := n.childid[n.slotuse + shiftnum]];
  }

  /** The children moved to the front, the last one by itself. */
  lemma InnerTail(s: seq<Node?>, b: seq<Node?>, i: nat)
    requires i < |b| <= |s| && s[..|b|] == b
    ensures var r := Overwritten(s, 0, s[i..|b| - 1]);
      r[|b| - 1 - i := r[|b| - 1]][..|b| - i] == b[i..]
  {
    var n := |b| - 1 - i;
    var r := Overwritten(s, 0, s[i..|b| - 1]);
    assert i + n == |b| - 1 && s[i..|b| - 1] == b[i..|b| - 1];
    assert r[..n] == b[i..|b| - 1];
    assert i == 0 ==> r[..n] == s[..n];
    assert r[|b| - 1] == b[|b| - 1] by { if n > 0 || i > 0 { assert |b| - 1 >= n; } }
    SlotPushed(r, b[i..|b| - 1], b[|b| - 1]);
    assert b[i..|b| - 1] + [b[|b| - 1]] == b[i..];
  }

  method ShiftRightInner(left: Node, right: Node, parent: Node, parentslot: nat,
                         ghost level: nat, ghost k1: seq<Key>, ghost c1: seq<Node?>, ghost k2: seq<Key>, ghost c2: seq<Node?>)
    requires InnerHolds(left, level, k1, c1) && InnerHolds(right, level, k2, c2)
    requires left != right && parent != left && parent != right
    requires parentslot < |parent.slotkey|
    requires |k2| + 2 <= |k1|
    modifies left`slotuse, right`slotkey, right`childid, right`slotuse, parent`slotkey
    ensures var k := |k1| - (|k1| - |k2|) / 2;
      && InnerHolds(left, level, k1[..k], c1[..k + 1])
      && InnerHolds(right, level, k1[k + 1..] + [old(parent.slotkey[parentslot])] + k2, c1[k + 1..] + c2)
      && parent.slotkey == old(parent.slotkey)[parentslot := k1[k]]
  {
    var shiftnum := (left.slotuse - right.slotuse) / 2;
    ghost var k := |k1| - shiftnum;
    ghost var key := parent.slotkey[parentslot];
    assert k1[k + 1..] + ([key] + k2) == k1[k + 1..] + [key] + k2;
    InnerTakesBack(left, right, parent.slotkey[parentslot], shiftnum, level, k1, c1, k2, c2);
    parent.slotkey := parent.slotkey[parentslot := left.slotkey[left.slotuse - shiftnum]];
    SlotsPrefix(left.slotkey, k1, k);
    SlotsPrefix(left.childid, c1, k + 1);
    left.slotuse := left.slotuse - shiftnum;
  }

  /** The separator and before it `shiftnum - 1` slots of the left node are put in front of the right node's. */
  method InnerTakesBack(left: Node, right: Node, separator: Key, shiftnum: nat,
                        ghost level: nat, ghost k1: seq<Key>, ghost c1: seq<Node?>, ghost k2: seq<Key>, ghost c2: seq<Node?>)
    requires InnerHolds(left, level, k1, c1) && InnerHolds(right, level, k2, c2) && left != right
    requires 0 < shiftnum <= |k1| && |k2| + shiftnum <= INNER_SLOT_MAX
    modifies right`slotkey, right`childid, right`slotuse
    ensures var k := |k1| - shiftnum;
      InnerHolds(right, level, k1[k + 1..] + ([separator] + k2), c1[k + 1..] + c2)
  {
    InnerMakesRoom(right, shiftnum, level, k2, c2);
    right.slotuse := right.slotuse + shiftnum;
    InnerFillsRoom(left, right, separator, shiftnum, level, k1, c1, k2, c2);
  }

  method InnerMakesRoom(n: Node, shiftnum: nat, ghost level: nat, ghost keys: seq<Key>, ghost refs: seq<Node?>)
    requires InnerHolds(n, level, keys, refs) && |keys| + shiftnum <= INNER_SLOT_MAX
    modifies n`slotkey, n`childid
    ensures |n.slotkey| == INNER_SLOT_MAX && |n.childid| == INNER_SLOT_MAX + 1
    ensures n.slotkey[shiftnum..shiftnum + |keys|] == keys
    ensures n.childid[shiftnum..shiftnum + |refs|] == refs
  {
    n.childid := n.childid[n.slotuse + shiftnum := n.childid[n.slotuse]];
    ghost var moved := n.childid;
    assert moved[..|keys|] == refs[..|keys|];
    n.RaiseInnerSlots(shiftnum, n.slotuse);
    RoomKids(moved, n.childid, refs, shiftnum);
  }

  method InnerFillsRoom(left: Node, right: Node, separator: Key, shiftnum: nat,
                        ghost level: nat, ghost k1: seq<Key>, ghost c1: seq<Node?>, ghost k2: seq<Key>, ghost c2: seq<Node?>)
    requires InnerHolds(left, level, k1, c1) && left != right && 0 < shiftnum <= |k1|
    requires right.level == level && right.slotuse == |k2| + shiftnum <= INNER_SLOT_MAX && |c2| == |k2| + 1
    requires |right.slotkey| == INNER_SLOT_MAX && |right.childid| == INNER_SLOT_MAX + 1
    requires right.slotkey[shiftnum..shiftnum + |k2|] == k2
    requires right.childid[shiftnum..shiftnum + |c2|] == c2
    modifies right`slotkey, right`childid
    ensures var k := |k1| - shiftnum;
      InnerHolds(right, level, k1[k + 1..] + ([separator] + k2), c1[k + 1..] + c2)
  {
    hide Overwritten;
    ghost var k := |k1| - shiftnum;
    RoomTaken(right.slotkey, k2, separator, shiftnum);
    RoomTaken(right.childid, c2, left.childid[left.slotuse], shiftnum);
    right.slotkey := right.slotkey[shiftnum - 1 := separator];
    right.childid := right.childid[shiftnum - 1 := left.childid[left.slotuse]];
    SlotsPrepended(right.slotkey, [separator] + k2, left.slotkey, k1, k + 1);
    SlotsPrepended(right.childid, [c1[|k1|]] + c2, left.childid, c1[..|k1|], k + 1);
    LastJoined(c1, k + 1, c2);
    right.CopyInnerSlots(0, left, left.slotuse - shiftnum + 1, shiftnum - 1);
  }

  lemma RoomKids<T>(before: seq<T>, after: seq<T>, c: seq<T>, n: nat)
    requires 0 < |c| && |c| + n <= |before| == |after|
    requires before[..|c| - 1] == c[..|c| - 1] && before[|c| - 1 + n] == c[|c| - 1]
    requires after[n..n + (|c| - 1)] == before[..|c| - 1]
    requires after[n + (|c| - 1)..] == before[n + (|c| - 1)..]
    ensures after[n..n + |c|] == c
  {
    assert after[n + (|c| - 1)] == after[n + (|c| - 1)..][0];
    assert after[n..n + |c|] == after[n..n + (|c| - 1)] + [after[n + (|c| - 1)]];
    assert c == c[..|c| - 1] + [c[|c| - 1]];
  }

  /** The last slot of the room in front of `b` taken by `v`. */
  lemma RoomTaken<T>(raised: seq<T>, b: seq<T>, v: T, n: nat)
    requires 0 < n && n + |b| <= |raised| && raised[n..n + |b|] == b
    ensures raised[n - 1 := v][n - 1..n + |b|] == [v] + b
  {
    var r := raised[n - 1 := v];
    assert r[n..n + |b|] == b;
    assert r[n - 1..n + |b|] == [r[n - 1]] + r[n..n + |b|];
  }

  lemma LastJoined<T>(c: seq<T>, i: nat, d: seq<T>)
    requires i < |c|
    ensures c[..|c| - 1][i..] + ([c[|c| - 1]] + d) == c[i..] + d
  {
  }

  /** Child `s` and the key before it are taken out of an inner node. */
  method DropChild(n: Node, s: nat, ghost level: nat, ghost keys: seq<Key>, ghost refs: seq<Node?>)
    requires InnerHolds(n, level, keys, refs) && 0 < s <= |keys|
    modifies n`slotkey, n`childid, n`slotuse
    ensures InnerHolds(n, level, keys[..s - 1] + keys[s..], refs[..s] + refs[s + 1..])
  {
    SlotsBetween(n.slotkey, keys);
    SlotsBetween(n.childid, refs);
    n.RemoveInnerSlot(s);
  }

  lemma SlotsBetween<T>(s: seq<T>, b: seq<T>)
    requires |b| <= |s| && s[..|b|] == b
    ensures forall i, j | 0 <= i <= j <= |b| :: s[i..j] == b[i..j]
  {
    forall i, j | 0 <= i <= j <= |b| ensures s[i..j] == b[i..j] {
      forall k | 0 <= k < j - i ensures s[i..j][k] == b[i..j][k] { assert s[..|b|][i + k] == s[i + k]; }
    }
  }

  // Operations on leaves

  /** The slots of `merge_leaves`; the leaf chain is the caller's part. */
  method MergeLeafSlots(left: Node, right: Node, ghost a: seq<Item>, ghost b: seq<Item>)
    requires LeafHolds(left, a) && LeafHolds(right, b) && left != right
    requires |a| + |b| < LEAF_SLOT_MAX
    modifies left`slotkey, left`slotdata, left`slotuse, right`slotuse
    ensures LeafHolds(left, a + b) && right.slotuse == 0
  {
    hide Overwritten;
    ItemsJoined(a, b);
    SlotsAppended(left.slotkey, KeysOf(a), right.slotkey, KeysOf(b), 0, |b|);
    SlotsAppended(left.slotdata, DataOf(a), right.slotdata, DataOf(b), 0, |b|);
    left.CopyLeafSlots(left.slotuse, right, 0, right.slotuse);
    left.slotuse := left.slotuse + right.slotuse;
    right.slotuse := 0;
  }

  method ShiftLeftLeaf(left: Node, right: Node, parent: Node, parentslot: nat, ghost a: seq<Item>, ghost b: seq<Item>)
    returns (updated: bool, lastkey: Key)
    requires LeafHolds(left, a) && LeafHolds(right, b) && left != right && parent != left && parent != right
    requires |a| + 2 <= |b| && parent.slotuse <= |parent.slotkey|
    modifies left`slotkey, left`slotdata, left`slotuse, right`slotkey, right`slotdata, right`slotuse, parent`slotkey
    ensures var n := (|b| - |a|) / 2;
      && LeafHolds(left, a + b[..n]) && LeafHolds(right, b[n..])
      && updated == (parentslot >= parent.slotuse)
      && lastkey == LastKey(a + b[..n])
      && parent.slotkey == if updated then old(parent.slotkey) else old(parent.slotkey)[parentslot := lastkey]
  {
    var shiftnum := (right.slotuse - left.slotuse) / 2;
    LeafTakesFront(left, right, shiftnum, a, b);
    LeafDropsFront(right, shiftnum, b);
    LastSlot(left, a + b[..shiftnum]);
    lastkey := left.slotkey[left.slotuse - 1];
    if parentslot < parent.slotuse {
      parent.slotkey := parent.slotkey[parentslot := lastkey];
      updated := false;
    } else {
      updated := true;
    }
  }

  method LeafTakesFront(left: Node, right: Node, shiftnum: nat, ghost a: seq<Item>, ghost b: seq<Item>)
    requires LeafHolds(left, a) && LeafHolds(right, b) && left != right
    requires shiftnum <= |b| && |a| + shiftnum <= LEAF_SLOT_MAX
    modifies left`slotkey, left`slotdata, left`slotuse
    ensures LeafHolds(left, a + b[..shiftnum])
  {
    hide Overwritten;
    ItemsJoined(a, b[..shiftnum]);
    ItemsSliced(b, 0, shiftnum);
    SlotsAppended(left.slotkey, KeysOf(a), right.slotkey, KeysOf(b), 0, shiftnum);
    SlotsAppended(left.slotdata, DataOf(a), right.slotdata, DataOf(b), 0, shiftnum);
    left.CopyLeafSlots(left.slotuse, right, 0, shiftnum);
    left.slotuse := left.slotuse + shiftnum;
  }

  method LeafDropsFront(n: Node, shiftnum: nat, ghost items: seq<Item>)
    requires LeafHolds(n, items) && shiftnum <= |items|
    modifies n`slotkey, n`slotdata, n`slotuse
    ensures LeafHolds(n, items[shiftnum..])
  {
    hide Overwritten;
    n.slotuse := n.slotuse - shiftnum;
    ItemsSliced(items, shiftnum, |items|);
    SlotsMoved(n.slotkey, KeysOf(items), shiftnum);
    SlotsMoved(n.slotdata, DataOf(items), shiftnum);
    n.CopyLeafSlots(0, n, shiftnum, n.slotuse);
  }

  /** The loop that closes the gap of an erased slot. */
  method DropLeafSlot(n: Node, slot: nat, ghost items: seq<Item>)
    requires LeafHolds(n, items) && slot < |items|
    modifies n`slotkey, n`slotdata, n`slotuse
    ensures LeafHolds(n, items[..slot] + items[slot + 1..])
  {
    hide Overwritten;
    ItemsJoined(items[..slot], items[slot + 1..]);
    ItemsSliced(items, 0, slot);
    ItemsSliced(items, slot + 1, |items|);
    SlotsPrefix(n.slotkey, KeysOf(items), slot);
    SlotsPrefix(n.slotdata, DataOf(items), slot);
    SlotsAppended(n.slotkey, KeysOf(items)[..slot], n.slotkey, KeysOf(items), slot + 1, |items|);
    SlotsAppended(n.slotdata, DataOf(items)[..slot], n.slotdata, DataOf(items), slot + 1, |items|);
    n.CopyLeafSlots(slot, n, slot + 1, n.slotuse - 1 - slot);
    n.slotuse := n.slotuse - 1;
  }

  lemma LastSlot(n: Node, items: seq<Item>)
    requires LeafHolds(n, items) && items != []
    ensures 0 < n.slotuse <= |n.slotkey|
    ensures n.slotkey[n.slotuse - 1] == LastKey(items)
  {
    assert n.slotkey[..|items|][|items| - 1] == n.slotkey[|items| - 1];
  }

  method ShiftRightLeaf(left: Node, right: Node, parent: Node, parentslot: nat, ghost a: seq<Item>, ghost b: seq<Item>)
    requires LeafHolds(left, a) && LeafHolds(right, b) && left != right && parent != left && parent != right
    requires |b| + 2 <= |a| && parentslot < |parent.slotkey|
    modifies left`slotuse, right`slotkey, right`slotdata, right`slotuse, parent`slotkey
    ensures var k := |a| - (|a| - |b|) / 2;
      && LeafHolds(left, a[..k]) && LeafHolds(right, a[k..] + b)
      && parent.slotkey == old(parent.slotkey)[parentslot := LastKey(a[..k])]
  {
    var shiftnum := (left.slotuse - right.slotuse) / 2;
    ghost var k := |a| - shiftnum;
    LeafTakesBack(left, right, shiftnum, a, b);
    ItemsSliced(a, 0, k);
    SlotsPrefix(left.slotkey, KeysOf(a), k);
    SlotsPrefix(left.slotdata, DataOf(a), k);
    left.slotuse := left.slotuse - shiftnum;
    LastSlot(left, a[..k]);
    parent.slotkey := parent.slotkey[parentslot := left.slotkey[left.slotuse - 1]];
  }

  lemma TakenBack(a: seq<Item>, b: seq<Item>, i: nat)
    requires i <= |a|
    ensures |KeysOf(a)| == |DataOf(a)| == |a| && |KeysOf(b)| == |DataOf(b)| == |b|
    ensures KeysOf(a[i..] + b) == KeysOf(a)[i..] + KeysOf(b) && DataOf(a[i..] + b) == DataOf(a)[i..] + DataOf(b)
  {
    ItemsJoined(a[i..], b);
    ItemsSliced(a, i, |a|);
  }

  method LeafTakesBack(left: Node, right: Node, shiftnum: nat, ghost a: seq<Item>, ghost b: seq<Item>)
    requires LeafHolds(left, a) && LeafHolds(right, b) && left != right
    requires shiftnum <= |a| && |b| + shiftnum < LEAF_SLOT_MAX
    modifies right`slotkey, right`slotdata, right`slotuse
    ensures LeafHolds(right, a[|a| - shiftnum..] + b)
  {
    hide Overwritten, KeysOf, DataOf;
    LeafMakesRoom(right, shiftnum, b);
    TakenBack(a, b, |a| - shiftnum);
    right.slotuse := right.slotuse + shiftnum;
    SlotsPrepended(right.slotkey, KeysOf(b), left.slotkey, KeysOf(a), |a| - shiftnum);
    SlotsPrepended(right.slotdata, DataOf(b), left.slotdata, DataOf(a), |a| - shiftnum);
    right.CopyLeafSlots(0, left, left.slotuse - shiftnum, shiftnum);
  }

  method LeafMakesRoom(n: Node, shiftnum: nat, ghost items: seq<Item>)
    requires LeafHolds(n, items) && |items| + shiftnum < LEAF_SLOT_MAX
    modifies n`slotkey, n`slotdata
    ensures |n.slotkey| == |n.slotdata| == LEAF_SLOT_MAX
    ensures n.slotkey[shiftnum..shiftnum + |items|] == KeysOf(items)
    ensures n.slotdata[shiftnum..shiftnum + |items|] == DataOf(items)
  {
    ghost var before, beforeData := n.slotkey, n.slotdata;
    n.RaiseLeafSlots(shiftnum, n.slotuse + 1);
    RaisedPart(before, n.slotkey, KeysOf(items), shiftnum);
    RaisedPart(beforeData, n.slotdata, DataOf(items), shiftnum);
  }

  lemma RaisedPart<T>(before: seq<T>, after: seq<T>, b: seq<T>, n: nat)
    requires |b| < |before| && before[..|b|] == b && |b| + 1 + n <= |after|
    requires after[n..n + (|b| + 1)] == before[..|b| + 1]
    ensures after[n..n + |b|] == b
  {
    assert after[n..n + |b|] == after[n..n + (|b| + 1)][..|b|];
  }
}
