/** Insertion in memory: the nodes taken, and the slot operations of `insert_descend`. */
module BTreeGrow {
  import opened BTreeNode
  import opened BTreeItems
  import opened BTreeTree
  import opened BTreeInsert
  import opened BTreeShape
  import opened BTreeMemory
  import opened BTreeChain
  import opened BTreeRepair

  /** The one or two nodes that take the place of the node descended into. */
  function After(r: Inserted): seq<Tree> {
    if r.split.Some? then [r.node, r.split.value.sibling] else [r.node]
  }

  /** Those nodes use the memory that was there and the nodes `more`, none of it twice. */
  ghost predicate Grown(t: Tree, r: Inserted, more: set<Node>) {
    AllApart(After(r)) && FootAll(After(r)) == Foot(t) + more
  }

  /** The children with the results for child `s` in its place. */
  function KidsAfter(t: Tree, s: nat, r: Inserted): seq<Tree>
    requires t.Inner? && s < |t.kids|
  {
    t.kids[..s] + After(r) + t.kids[s + 1..]
  }

  lemma {:induction false} GrownKids(t: Tree, s: nat, r: Inserted, more: set<Node>)
    requires t.Inner? && s < |t.kids| && Apart(t) && Grown(t.kids[s], r, more) && more !! Foot(t)
    ensures var a, b := LeafRefsAll(t.kids[..s]), LeafRefsAll(t.kids[s + 1..]);
      && AllApart(KidsAfter(t, s, r)) && FootAll(KidsAfter(t, s, r)) == FootAll(t.kids) + more
      && t.ref !in FootAll(KidsAfter(t, s, r))
      && LeafRefs(t) == a + LeafRefs(t.kids[s]) + b
      && LeafRefsAll(KidsAfter(t, s, r)) == a + LeafRefsAll(After(r)) + b
      && InnerCountAll(KidsAfter(t, s, r)) - InnerCountAll(t.kids) == InnerCountAll(After(r)) - InnerCount(t.kids[s])
  {
    hide LeafRefsAll, InnerCountAll, FootAll, AllApart, LeafRefs, InnerCount;
    var k, kids := s + |After(r)|, KidsAfter(t, s, r);
    ShapeAround(t.kids, s, s + 1);
    assert t.kids[s..s + 1] == [t.kids[s]];
    ShapeOne(t.kids[s]);
    ShapeAround(kids, s, k);
    assert kids[..s] == t.kids[..s] && kids[s..k] == After(r) && kids[k..] == t.kids[s + 1..];
    TopShape(t);
  }

  lemma TopShape(t: Tree)
    requires t.Inner?
    ensures LeafRefs(t) == LeafRefsAll(t.kids) && InnerCount(t) == 1 + InnerCountAll(t.kids)
    ensures Foot(t) == {t.ref} + FootAll(t.kids)
    ensures Apart(t) <==> t.ref !in FootAll(t.kids) && AllApart(t.kids)
  {
  }

  /** The node keeps all children: nothing is split here. */
  lemma {:induction false} GrownOne(t: Tree, s: nat, rc: Inserted, more: set<Node>, r: Inserted)
    requires t.Inner? && s < |t.kids| && Apart(t) && Grown(t.kids[s], rc, more) && more !! Foot(t)
    requires r.split.None? && r.node.Inner? && r.node.ref == t.ref && r.node.kids == KidsAfter(t, s, rc)
    ensures Grown(t, r, more)
    ensures LeafRefsAll(After(r)) == LeafRefsAll(t.kids[..s]) + LeafRefsAll(After(rc)) + LeafRefsAll(t.kids[s + 1..])
    ensures InnerCountAll(After(r)) - InnerCount(t) == InnerCountAll(After(rc)) - InnerCount(t.kids[s])
  {
    hide LeafRefsAll, InnerCountAll, FootAll, AllApart, LeafRefs, InnerCount, Foot, Apart;
    GrownKids(t, s, rc, more);
    ShapeOne(r.node);
    TopShape(t);
    TopShape(r.node);
  }

  /** The children are shared out between the node and a new one. */
  lemma {:induction false} GrownTwo(t: Tree, s: nat, rc: Inserted, more: set<Node>, r: Inserted, spare: Node, k: nat)
    requires t.Inner? && s < |t.kids| && Apart(t) && Grown(t.kids[s], rc, more) && more !! Foot(t)
    requires spare !in Foot(t) && spare !in more && k <= |KidsAfter(t, s, rc)|
    requires r.split.Some? && r.node.Inner? && r.node.ref == t.ref && r.node.kids == KidsAfter(t, s, rc)[..k]
    requires var y := r.split.value.sibling; y.Inner? && y.ref == spare && y.kids == KidsAfter(t, s, rc)[k..]
    ensures Grown(t, r, more + {spare})
    ensures LeafRefsAll(After(r)) == LeafRefsAll(t.kids[..s]) + LeafRefsAll(After(rc)) + LeafRefsAll(t.kids[s + 1..])
    ensures InnerCountAll(After(r)) - InnerCount(t) == InnerCountAll(After(rc)) - InnerCount(t.kids[s]) + 1
  {
    hide LeafRefsAll, InnerCountAll, FootAll, AllApart, LeafRefs, InnerCount, Foot, Apart;
    var y, kids := r.split.value.sibling, KidsAfter(t, s, rc);
    GrownKids(t, s, rc, more);
    ShapeTwo(r.node, y);
    TopShape(t);
    TopShape(r.node);
    TopShape(y);
    assert kids == kids[..k] + kids[k..];
    ShapeConcat(kids[..k], kids[k..]);
    FootConcat(kids[..k], kids[k..]);
  }

  lemma {:induction false} GrownLeaf(t: Tree, r: Inserted, more: set<Node>)
    requires t.Leaf? && r.node.Leaf? && r.node.ref == t.ref
    requires r.split.None? ==> more == {}
    requires r.split.Some? ==> r.split.value.sibling.Leaf? && more == {r.split.value.sibling.ref} && t.ref !in more
    ensures Grown(t, r, more)
    ensures LeafRefsAll(After(r)) == if r.split.None? then [t.ref] else [t.ref, r.split.value.sibling.ref]
    ensures InnerCountAll(After(r)) == 0
  {
    LeafShape(r.node);
    if r.split.None? {
      ShapeOne(r.node);
    } else {
      LeafShape(r.split.value.sibling);
      ShapeTwo(r.node, r.split.value.sibling);
    }
  }

  /** Which nodes are at hand further up does not matter below. */
  lemma {:induction false} SpareExtends(t: Tree, x: Item, spare: seq<Node>, y: Node)
    requires ShapeOk(t) && |spare| > t.Level()
    ensures InsertNode(t, x, spare + [y]) == InsertNode(t, x, spare)
    decreases t
  {
    if t.Inner? { SpareExtends(t.kids[FindLower(t.keys, x.key)], x, spare, y); }
  }

  /** The node stays where it was; a sibling is the node at hand for its level. */
  lemma {:induction false} InsertNodeRef(t: Tree, x: Item, spare: seq<Node>)
    requires ShapeOk(t) && |spare| > t.Level()
    ensures var r := InsertNode(t, x, spare);
      r.node.ref == t.ref && (r.split.Some? ==> r.split.value.sibling.ref == spare[t.Level()])
  {
  }

  // Slots

  /** The loop that moves the pairs with a greater key one slot up. */
  method MakeLeafRoom(leaf: Node, key: Key, ghost items: seq<Item>) returns (slot: nat)
    requires LeafHolds(leaf, items) && |items| < LEAF_SLOT_MAX
    modifies leaf`slotkey, leaf`slotdata
    ensures |leaf.slotkey| == |leaf.slotdata| == LEAF_SLOT_MAX
    ensures slot <= |items| && (slot > 0 ==> items[slot - 1].key <= key)
    ensures forall j | slot <= j < |items| :: key < items[j].key
    ensures leaf.slotkey[..slot] == old(leaf.slotkey[..slot])
    ensures leaf.slotdata[..slot] == old(leaf.slotdata[..slot])
    ensures leaf.slotkey[slot + 1..|items| + 1] == old(leaf.slotkey[slot..|items|])
    ensures leaf.slotdata[slot + 1..|items| + 1] == old(leaf.slotdata[slot..|items|])
  {
    SlotsAt(leaf.slotkey, KeysOf(items));
    ghost var keys, datas, n := leaf.slotkey, leaf.slotdata, |items|;
    var i: int := leaf.slotuse - 1;
    while i >= 0 && key < leaf.slotkey[i]
      invariant -1 <= i < n
      invariant Raised(leaf.slotkey, keys, i + 1, n) && Raised(leaf.slotdata, datas, i + 1, n)
      invariant forall j | i < j < n :: key < items[j].key
    {
      hide Raised;
      RaisedStep(leaf.slotkey, keys, i, n);
      RaisedStep(leaf.slotdata, datas, i, n);
      leaf.slotkey := leaf.slotkey[i + 1 := leaf.slotkey[i]];
      leaf.slotdata := leaf.slotdata[i + 1 := leaf.slotdata[i]];
      i := i - 1;
    }
    slot := i + 1;
    if slot > 0 { assert keys[i] == keys[..slot][i] == leaf.slotkey[i]; }
  }

  /** The first `n` elements from `i` on have moved one place up, those before have stayed. */
  ghost predicate Raised<T>(s: seq<T>, before: seq<T>, i: nat, n: nat) {
    && i <= n < |before| == |s|
    && s[..i] == before[..i] && s[i + 1..n + 1] == before[i..n]
  }

  lemma RaisedStep<T>(s: seq<T>, before: seq<T>, i: nat, n: nat)
    requires Raised(s, before, i + 1, n)
    ensures i + 1 < |s| && s[i] == before[i] && Raised(s[i + 1 := s[i]], before, i, n)
  {
    assert s[i] == s[..i + 1][i];
    var r := s[i + 1 := s[i]];
    assert r[i + 1..n + 1] == [r[i + 1]] + r[i + 2..n + 1];
    assert before[i..n] == [before[i]] + before[i + 1..n];
    assert r[i + 2..n + 1] == s[i + 2..n + 1];
    assert r[..i] == s[..i + 1][..i];
  }

  /** The pair put behind the pairs with no greater key. */
  method PutLeafSlot(leaf: Node, key: Key, data: Data, ghost items: seq<Item>) returns (slot: nat)
    requires LeafHolds(leaf, items) && SortedItems(items) && |items| < LEAF_SLOT_MAX
    modifies leaf`slotkey, leaf`slotdata, leaf`slotuse
    ensures LeafHolds(leaf, PutItem(items, Item(key, data)))
    ensures slot == FindUpper(KeysOf(items), key)
  {
    hide FindUpper;
    ghost var keys, datas := leaf.slotkey, leaf.slotdata;
    slot := MakeLeafRoom(leaf, key, items);
    SlotIsUpper(items, key, slot);
    GapFilled(leaf.slotkey, keys, KeysOf(items), slot, key);
    GapFilled(leaf.slotdata, datas, DataOf(items), slot, data);
    PutSlices(items, slot, Item(key, data));
    leaf.slotkey := leaf.slotkey[slot := key];
    leaf.slotdata := leaf.slotdata[slot := data];
    leaf.slotuse := leaf.slotuse + 1;
  }

  lemma SlotIsUpper(items: seq<Item>, key: Key, slot: nat)
    requires SortedItems(items) && slot <= |items| && (slot > 0 ==> items[slot - 1].key <= key)
    requires forall j | slot <= j < |items| :: key < items[j].key
    ensures slot == FindUpper(KeysOf(items), key)
  {
    var keys := KeysOf(items);
    forall j | 0 <= j < slot ensures keys[j] <= key { assert keys[j] == items[j].key <= items[slot - 1].key; }
    forall j | slot <= j < |keys| ensures key < keys[j] { assert keys[j] == items[j].key; }
    UpperUnique(keys, key, slot);
  }

  lemma GapFilled<T>(moved: seq<T>, before: seq<T>, b: seq<T>, i: nat, v: T)
    requires i <= |b| < |before| == |moved| && before[..|b|] == b
    requires moved[..i] == before[..i] && moved[i + 1..|b| + 1] == before[i..|b|]
    ensures moved[i := v][..|b| + 1] == b[..i] + [v] + b[i..]
  {
    var r := moved[i := v];
    assert r[..i] == b[..i];
    assert r[i + 1..|b| + 1] == b[i..];
    assert r[..|b| + 1] == r[..i] + [r[i]] + r[i + 1..|b| + 1];
  }

  lemma PutSlices(items: seq<Item>, p: nat, x: Item)
    requires p <= |items|
    ensures KeysOf(PutAt(items, p, x)) == KeysOf(items)[..p] + [x.key] + KeysOf(items)[p..]
    ensures DataOf(PutAt(items, p, x)) == DataOf(items)[..p] + [x.data] + DataOf(items)[p..]
  {
  }

  /** The loop that makes room for a child behind child `slot`. */
  method PutInnerSlot(inner: Node, slot: nat, newkey: Key, newchild: Node,
                      ghost level: nat, ghost keys: seq<Key>, ghost refs: seq<Node?>)
    requires InnerHolds(inner, level, keys, refs) && slot <= |keys| < INNER_SLOT_MAX
    modifies inner`slotkey, inner`childid, inner`slotuse
    ensures InnerHolds(inner, level, keys[..slot] + [newkey] + keys[slot..],
                       refs[..slot + 1] + [newchild] + refs[slot + 1..])
  {
    ghost var keys0, kids0 := inner.slotkey, inner.childid;
    var i := inner.slotuse;
    while i > slot
      invariant slot <= i <= |keys| && inner.slotuse == |keys|
      invariant |inner.slotkey| == INNER_SLOT_MAX && |inner.childid| == INNER_SLOT_MAX + 1
      invariant inner.slotkey[..i] == keys0[..i] && inner.childid[..i + 1] == kids0[..i + 1]
      invariant inner.slotkey[i + 1..|keys| + 1] == keys0[i..|keys|]
      invariant inner.childid[i + 2..|keys| + 2] == kids0[i + 1..|keys| + 1]
    {
      assert inner.slotkey[i - 1] == inner.slotkey[..i][i - 1] && inner.childid[i] == inner.childid[..i + 1][i];
      inner.slotkey := inner.slotkey[i := inner.slotkey[i - 1]];
      inner.childid := inner.childid[i + 1 := inner.childid[i]];
      i := i - 1;
    }
    GapFilled(inner.slotkey, keys0, keys, slot, newkey);
    GapFilled(inner.childid, kids0, refs, slot + 1, newchild);
    inner.slotkey := inner.slotkey[slot := newkey];
    inner.childid := inner.childid[slot + 1 := newchild];
    inner.slotuse := inner.slotuse + 1;
  }

  /** `split_inner_node`. */
  method SplitInnerNode(inner: Node, addslot: nat, ghost level: nat, ghost keys: seq<Key>, ghost refs: seq<Node?>)
    returns (newkey: Key, newinner: Node)
    requires InnerHolds(inner, level, keys, refs) && |keys| == INNER_SLOT_MAX
    modifies inner`slotuse
    ensures fresh(newinner)
    ensures var mid := SplitPoint(|keys|, addslot);
      && mid < |keys| && newkey == keys[mid]
      && InnerHolds(inner, level, keys[..mid], refs[..mid + 1])
      && InnerHolds(newinner, level, keys[mid + 1..], refs[mid + 1..])
  {
    var mid := inner.slotuse / 2;
    if addslot <= mid && mid > inner.slotuse - (mid + 1) {
      mid := mid - 1;
    }
    newinner := new Node.InitInner(inner.level);
    MoveInnerTail(inner, newinner, mid + 1, level, keys, refs);
    SlotsPrefix(inner.slotkey, keys, mid + 1);
    SlotsPrefix(inner.slotkey, keys, mid);
    SlotsPrefix(inner.childid, refs, mid + 1);
    newkey := inner.slotkey[mid];
    assert newkey == inner.slotkey[..mid + 1][mid] == keys[mid];
    inner.slotuse := mid;
  }

  /** The slots from `from` on copied to a new node. */
  method MoveInnerTail(inner: Node, newinner: Node, from: nat, ghost level: nat, ghost keys: seq<Key>, ghost refs: seq<Node?>)
    requires InnerHolds(inner, level, keys, refs) && inner != newinner && from <= |keys|
    requires newinner.level == level && |newinner.slotkey| == INNER_SLOT_MAX && |newinner.childid| == INNER_SLOT_MAX + 1
    modifies newinner`slotkey, newinner`childid, newinner`slotuse
    ensures InnerHolds(newinner, level, keys[from..], refs[from..])
  {
    hide Overwritten;
    newinner.slotuse := inner.slotuse - from;
    EmptyPrefix(newinner.slotkey);
    EmptyPrefix(newinner.childid);
    SlotsAppended(newinner.slotkey, [], inner.slotkey, keys, from, |keys|);
    SlotsAppended(newinner.childid, [], inner.childid, refs, from, |keys|);
    newinner.CopyInnerSlots(0, inner, from, newinner.slotuse);
    SlotPushed(newinner.childid, refs[from..|keys|], inner.childid[inner.slotuse]);
    TailSplit(refs, from);
    newinner.childid := newinner.childid[newinner.slotuse := inner.childid[inner.slotuse]];
  }

  lemma EmptyPrefix<T>(s: seq<T>)
    ensures s[..0] == []
  {
  }

  lemma TailSplit<T>(s: seq<T>, i: nat)
    requires i < |s|
    ensures s[i..|s| - 1] + [s[|s| - 1]] == s[i..]
  {
  }

  // One inner node and the results for its child `s`

  lemma {:induction false} HoldsKids(t: Tree, s: nat, rc: Inserted)
    requires t.Inner? && s < |t.kids| && HoldsBeside(t, s) && AllHold(After(rc))
    ensures AllHold(KidsAfter(t, s, rc))
  {
    hide AllHold, InnerHolds;
    AllHoldConcat(t.kids[..s] + After(rc), t.kids[s + 1..]);
    AllHoldConcat(t.kids[..s], After(rc));
  }

  lemma {:induction false} KidsAfterOne(t: Tree, s: nat, rc: Inserted)
    requires t.Inner? && s < |t.kids| && rc.split.None? && rc.node.ref == t.kids[s].ref
    ensures KidsAfter(t, s, rc) == t.kids[s := rc.node] && RefsOf(KidsAfter(t, s, rc)) == RefsOf(t.kids)
  {
  }

  lemma {:induction false} KidsAfterTwo(t: Tree, s: nat, rc: Inserted)
    requires t.Inner? && s < |t.kids| && s <= |t.keys| && rc.split.Some? && rc.node.ref == t.kids[s].ref
    ensures KidsAfter(t, s, rc) == PutChild(t, s, rc.node, rc.split.value).kids
    ensures RefsOf(KidsAfter(t, s, rc)) == RefsOf(t.kids)[..s + 1] + [rc.split.value.sibling.ref] + RefsOf(t.kids)[s + 1..]
  {
  }

  /** The pending child goes into a node with room for it. */
  method PlaceChild(inner: Node, slot: nat, newkey: Key, newchild: Node, ghost t: Tree, ghost rc: Inserted)
    requires t.Inner? && inner == t.ref && slot <= |t.keys| < INNER_SLOT_MAX && |t.kids| == |t.keys| + 1
    requires HoldsBeside(t, slot) && AllHold(After(rc)) && rc.node.ref == t.kids[slot].ref
    requires rc.split.Some? && newkey == rc.split.value.key && newchild == rc.split.value.sibling.ref
    requires inner !in FootAll(KidsAfter(t, slot, rc))
    modifies inner`slotkey, inner`childid, inner`slotuse
    ensures Holds(PutChild(t, slot, rc.node, rc.split.value))
  {
    hide AllHold, InnerHolds, FootAll, Holds;
    ghost var u := PutChild(t, slot, rc.node, rc.split.value);
    HoldsKids(t, slot, rc);
    KidsAfterTwo(t, slot, rc);
    AllExisting(u.kids);
    HoldsShape(t, slot);
    PutInnerSlot(inner, slot, newkey, newchild, t.level, t.keys, RefsOf(t.kids));
    HoldsTop(u);
  }

  lemma HoldsShape(t: Tree, s: nat)
    requires t.Inner? && s < |t.kids| && HoldsBeside(t, s)
    ensures InnerHolds(t.ref, t.level, t.keys, RefsOf(t.kids)) && t.ref.slotuse == |t.keys| && t.level > 0
  {
  }

  /** The pending child goes into one half of a full node, or between the halves. */
  method SplitAndPlace(inner: Node, slot: nat, newkey: Key, newchild: Node, ghost t: Tree, ghost rc: Inserted)
    returns (splitkey: Key, splitnode: Node)
    requires t.Inner? && inner == t.ref && slot <= |t.keys| == INNER_SLOT_MAX && |t.kids| == |t.keys| + 1
    requires HoldsBeside(t, slot) && AllHold(After(rc)) && rc.node.ref == t.kids[slot].ref
    requires rc.split.Some? && newkey == rc.split.value.key && newchild == rc.split.value.sibling.ref
    requires inner !in FootAll(KidsAfter(t, slot, rc))
    modifies inner`slotkey, inner`childid, inner`slotuse
    ensures fresh(splitnode)
    ensures var (left, right) := SplitInner(t, slot, rc.node, rc.split.value, splitnode);
      && Holds(left) && Holds(right.sibling) && splitkey == right.key && splitnode == right.sibling.ref
  {
    hide AllHold, FootAll, Holds, SplitInner, InnerHolds, CutPoint, SplitPoint, RefsOf;
    ghost var kids := KidsAfter(t, slot, rc);
    HoldsKids(t, slot, rc);
    KidsAfterTwo(t, slot, rc);
    AllExisting(kids);
    HoldsShape(t, slot);
    splitkey, splitnode := SplitSlots(inner, slot, newkey, newchild, t, rc.node, rc.split.value);
    SplitInnerIsCut(t, slot, rc.node, rc.split.value, splitnode);
    ghost var k := CutPoint(|t.keys|, slot);
    AllHoldAround(kids, k + 1, |kids|);
    assert kids[k + 1..|kids|] == kids[k + 1..];
    ghost var (left, right) := SplitInner(t, slot, rc.node, rc.split.value, splitnode);
    HoldsTop(left);
    HoldsTop(right.sibling);
  }

  ghost predicate SplitHeld(t: Tree, s: nat, c: Tree, sp: Split, splitkey: Key, splitnode: Node)
    requires t.Inner? && |t.kids| == |t.keys| + 1 && |t.keys| == INNER_SLOT_MAX && s < |t.kids|
    reads t.ref`level, t.ref`slotuse, t.ref`slotkey, t.ref`childid
    reads splitnode`level, splitnode`slotuse, splitnode`slotkey, splitnode`childid
  {
    var (left, right) := SplitInner(t, s, c, sp, splitnode);
    && InnerHolds(t.ref, t.level, left.keys, RefsOf(left.kids))
    && InnerHolds(splitnode, t.level, right.sibling.keys, RefsOf(right.sibling.kids))
    && splitkey == right.key
  }

  method SplitSlots(inner: Node, addslot: nat, newkey: Key, newchild: Node, ghost t: Tree, ghost c: Tree, ghost sp: Split)
    returns (splitkey: Key, splitnode: Node)
    requires t.Inner? && inner == t.ref && addslot <= |t.keys| == INNER_SLOT_MAX && |t.kids| == |t.keys| + 1
    requires InnerHolds(inner, t.level, t.keys, RefsOf(t.kids)) && c.ref == t.kids[addslot].ref
    requires newkey == sp.key && newchild == sp.sibling.ref
    modifies inner`slotkey, inner`childid, inner`slotuse
    ensures fresh(splitnode) && SplitHeld(t, addslot, c, sp, splitkey, splitnode)
  {
    hide SplitPoint, InnerHolds, SplitInner, RefsOf, SplitHeld;
    ghost var refs, mid := RefsOf(t.kids), SplitPoint(|t.keys|, addslot);
    splitkey, splitnode := SplitInnerNode(inner, addslot, t.level, t.keys, refs);
    SplitUse(inner, splitnode, t, mid);
    if addslot == inner.slotuse + 1 && inner.slotuse < splitnode.slotuse {
      splitkey := MoveAcross(inner, splitnode, splitkey, newkey, newchild, t.level, t.keys, refs, mid);
      HeldAcross(t, addslot, c, sp, splitnode, mid);
    } else if addslot >= inner.slotuse + 1 {
      PutInnerSlot(splitnode, addslot - (inner.slotuse + 1), newkey, newchild, t.level, t.keys[mid + 1..], refs[mid + 1..]);
      HeldRight(t, addslot, c, sp, splitnode, mid);
    } else {
      PutInnerSlot(inner, addslot, newkey, newchild, t.level, t.keys[..mid], refs[..mid + 1]);
      HeldLeft(t, addslot, c, sp, splitnode, mid);
    }
  }

  lemma HeldAcross(t: Tree, s: nat, c: Tree, sp: Split, splitnode: Node, mid: nat)
    requires t.Inner? && |t.kids| == |t.keys| + 1 && |t.keys| == INNER_SLOT_MAX && s < |t.kids| && c.ref == t.kids[s].ref
    requires mid == SplitPoint(|t.keys|, s) && s == mid + 1 && mid < |t.keys| - (mid + 1)
    requires InnerHolds(t.ref, t.level, t.keys[..mid] + [t.keys[mid]], RefsOf(t.kids)[..mid + 1] + [RefsOf(t.kids)[mid + 1]])
    requires InnerHolds(splitnode, t.level, t.keys[mid + 1..], RefsOf(t.kids)[mid + 1..][0 := sp.sibling.ref])
    ensures SplitHeld(t, s, c, sp, sp.key, splitnode)
  {
    hide SplitPoint, InnerHolds, RefsOf, SplitInner;
    SplitForm(t, s, c, sp, splitnode, mid);
    SameRefs(t.kids, s, c);
    RefsAcross(t.kids[s := c], mid + 1, sp.sibling);
  }

  lemma HeldRight(t: Tree, s: nat, c: Tree, sp: Split, splitnode: Node, mid: nat)
    requires t.Inner? && |t.kids| == |t.keys| + 1 && |t.keys| == INNER_SLOT_MAX && s < |t.kids| && c.ref == t.kids[s].ref
    requires mid == SplitPoint(|t.keys|, s) && mid + 1 <= s && !(s == mid + 1 && mid < |t.keys| - (mid + 1))
    requires mid < |t.keys|
    requires InnerHolds(t.ref, t.level, t.keys[..mid], RefsOf(t.kids)[..mid + 1])
    requires var keys, refs, i := t.keys[mid + 1..], RefsOf(t.kids)[mid + 1..], s - (mid + 1);
      InnerHolds(splitnode, t.level, keys[..i] + [sp.key] + keys[i..], refs[..i + 1] + [sp.sibling.ref] + refs[i + 1..])
    ensures SplitHeld(t, s, c, sp, t.keys[mid], splitnode)
  {
    hide SplitPoint, InnerHolds, RefsOf, SplitInner;
    var kids := t.kids[s := c];
    SplitForm(t, s, c, sp, splitnode, mid);
    SameRefs(t.kids, s, c);
    RefsCut(kids, mid + 1);
    RefsPut(kids[mid + 1..], s - (mid + 1), c, sp.sibling);
  }

  lemma HeldLeft(t: Tree, s: nat, c: Tree, sp: Split, splitnode: Node, mid: nat)
    requires t.Inner? && |t.kids| == |t.keys| + 1 && |t.keys| == INNER_SLOT_MAX && s < |t.kids| && c.ref == t.kids[s].ref
    requires mid == SplitPoint(|t.keys|, s) && s <= mid < |t.keys|
    requires var keys, refs := t.keys[..mid], RefsOf(t.kids)[..mid + 1];
      InnerHolds(t.ref, t.level, keys[..s] + [sp.key] + keys[s..], refs[..s + 1] + [sp.sibling.ref] + refs[s + 1..])
    requires InnerHolds(splitnode, t.level, t.keys[mid + 1..], RefsOf(t.kids)[mid + 1..])
    ensures SplitHeld(t, s, c, sp, t.keys[mid], splitnode)
  {
    hide SplitPoint, InnerHolds, RefsOf, SplitInner;
    var kids := t.kids[s := c];
    SplitForm(t, s, c, sp, splitnode, mid);
    SameRefs(t.kids, s, c);
    RefsCut(kids, mid + 1);
    RefsPut(kids[..mid + 1], s, c, sp.sibling);
  }

  lemma SplitForm(t: Tree, s: nat, c: Tree, sp: Split, spare: Node, mid: nat)
    requires t.Inner? && |t.kids| == |t.keys| + 1 && |t.keys| == INNER_SLOT_MAX && s < |t.kids|
    requires mid == SplitPoint(|t.keys|, s)
    ensures var (left, right), kids := SplitInner(t, s, c, sp, spare), t.kids[s := c];
      if s == mid + 1 && mid < |t.keys| - (mid + 1) then
        && left.keys == t.keys[..mid] + [t.keys[mid]] && left.kids == kids[..mid + 1] + [kids[mid + 1..][0]]
        && right.key == sp.key
        && right.sibling.keys == t.keys[mid + 1..] && right.sibling.kids == [sp.sibling] + kids[mid + 1..][1..]
      else if s >= mid + 1 then
        && left.keys == t.keys[..mid] && left.kids == kids[..mid + 1] && right.key == t.keys[mid]
        && right.sibling == PutChild(Inner(spare, t.level, t.keys[mid + 1..], kids[mid + 1..]), s - (mid + 1), c, sp)
      else
        && left == PutChild(Inner(t.ref, t.level, t.keys[..mid], kids[..mid + 1]), s, c, sp)
        && right.key == t.keys[mid]
        && right.sibling.keys == t.keys[mid + 1..] && right.sibling.kids == kids[mid + 1..]
  {
  }

  lemma SplitUse(inner: Node, splitnode: Node, t: Tree, mid: nat)
    requires t.Inner? && mid < |t.keys| && |t.kids| == |t.keys| + 1
    requires InnerHolds(inner, t.level, t.keys[..mid], RefsOf(t.kids)[..mid + 1])
    requires InnerHolds(splitnode, t.level, t.keys[mid + 1..], RefsOf(t.kids)[mid + 1..])
    ensures inner.slotuse == mid && splitnode.slotuse == |t.keys| - (mid + 1) && t.level > 0
  {
  }

  lemma RefsCut(kids: seq<Tree>, i: nat)
    requires i <= |kids|
    ensures RefsOf(kids[..i]) == RefsOf(kids)[..i] && RefsOf(kids[i..]) == RefsOf(kids)[i..]
  {
  }

  lemma RefsAcross(kids: seq<Tree>, i: nat, y: Tree)
    requires i < |kids|
    ensures RefsOf(kids[..i] + [kids[i..][0]]) == RefsOf(kids)[..i] + [RefsOf(kids)[i]]
    ensures RefsOf([y] + kids[i..][1..]) == RefsOf(kids)[i..][0 := y.ref]
  {
  }

  lemma RefsPut(kids: seq<Tree>, s: nat, c: Tree, y: Tree)
    requires s < |kids| && kids[s].ref == c.ref
    ensures RefsOf(kids[..s] + [c, y] + kids[s + 1..]) == RefsOf(kids)[..s + 1] + [y.ref] + RefsOf(kids)[s + 1..]
  {
  }

  /** The pending child is the first of the right half; the left half takes the old separator and first child. */
  method MoveAcross(inner: Node, splitnode: Node, splitkey: Key, newkey: Key, newchild: Node,
                    ghost level: nat, ghost keys: seq<Key>, ghost refs: seq<Node?>, ghost mid: nat) returns (separator: Key)
    requires inner != splitnode && mid + 1 < |keys| <= INNER_SLOT_MAX && |refs| == |keys| + 1 && splitkey == keys[mid]
    requires InnerHolds(inner, level, keys[..mid], refs[..mid + 1])
    requires InnerHolds(splitnode, level, keys[mid + 1..], refs[mid + 1..])
    modifies inner`slotkey, inner`childid, inner`slotuse, splitnode`childid
    ensures InnerHolds(inner, level, keys[..mid] + [keys[mid]], refs[..mid + 1] + [refs[mid + 1]])
    ensures InnerHolds(splitnode, level, keys[mid + 1..], refs[mid + 1..][0 := newchild])
    ensures separator == newkey
  {
    SlotsAt(splitnode.childid, refs[mid + 1..]);
    PrefixSet(splitnode.childid, refs[mid + 1..], 0, newchild);
    SlotPushed(inner.slotkey, keys[..mid], splitkey);
    SlotPushed(inner.childid, refs[..mid + 1], splitnode.childid[0]);
    inner.slotkey := inner.slotkey[inner.slotuse := splitkey];
    inner.childid := inner.childid[inner.slotuse + 1 := splitnode.childid[0]];
    inner.slotuse := inner.slotuse + 1;
    splitnode.childid := splitnode.childid[0 := newchild];
    separator := newkey;
  }
}
