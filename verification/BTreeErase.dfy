/**
 * Merging two neighbours and moving slots between them, on values, and the
 * proof that both keep the order, the fill and the contents.
 */
module BTreeBalance {
  import opened BTreeNode
  import opened BTreeItems
  import opened BTreeTree

  /** Two nodes of one level with the separator that stands between them. */
  ghost predicate Neighbours(x: Tree, m: Key, y: Tree) {
    && x.Level() == y.Level()
    && (x.Leaf? <==> y.Leaf?)
    && Contents(x) != [] && Contents(y) != []
    && m == HighKey(x) && m <= LowKey(y)
  }

  function LastKey(items: seq<Item>): Key
    requires items != []
  {
    items[|items| - 1].key
  }

  /** `merge_leaves` and `merge_inner`: everything goes to the left node. */
  function MergePair(x: Tree, m: Key, y: Tree): (z: Tree)
    requires x.Leaf? <==> y.Leaf?
    ensures z.ref == x.ref && (z.Leaf? <==> x.Leaf?)
  {
    if x.Leaf? then Leaf(x.ref, x.items + y.items)
    else Inner(x.ref, x.level, x.keys + [m] + y.keys, x.kids + y.kids)
  }

  datatype Shifted = Shifted(left: Tree, separator: Key, right: Tree)

  /** `shift_left_leaf` and `shift_left_inner`: half of the surplus goes left. */
  function ShiftLeft(x: Tree, m: Key, y: Tree): (r: Shifted)
    requires x.Leaf? <==> y.Leaf?
    requires x.Use() + 2 <= y.Use()
    requires y.Inner? ==> |y.kids| == |y.keys| + 1
    ensures r.left.ref == x.ref && r.right.ref == y.ref
  {
    var n := (y.Use() - x.Use()) / 2;
    if x.Leaf? then
      var items := x.items + y.items[..n];
      Shifted(Leaf(x.ref, items), LastKey(items), Leaf(y.ref, y.items[n..]))
    else
      Shifted(Inner(x.ref, x.level, x.keys + [m] + y.keys[..n - 1], x.kids + y.kids[..n]),
              y.keys[n - 1],
              Inner(y.ref, y.level, y.keys[n..], y.kids[n..]))
  }

  /** `shift_right_leaf` and `shift_right_inner`: half of the surplus goes right. */
  function ShiftRight(x: Tree, m: Key, y: Tree): (r: Shifted)
    requires x.Leaf? <==> y.Leaf?
    requires y.Use() + 2 <= x.Use()
    requires x.Inner? ==> |x.kids| == |x.keys| + 1
    ensures r.left.ref == x.ref && r.right.ref == y.ref
  {
    var n := (x.Use() - y.Use()) / 2;
    var k := x.Use() - n;
    if x.Leaf? then
      Shifted(Leaf(x.ref, x.items[..k]), LastKey(x.items[..k]), Leaf(y.ref, x.items[k..] + y.items))
    else
      Shifted(Inner(x.ref, x.level, x.keys[..k], x.kids[..k + 1]),
              x.keys[k],
              Inner(y.ref, y.level, x.keys[k + 1..] + [m] + y.keys, x.kids[k + 1..] + y.kids))
  }

  lemma {:induction false} SeparatedConcat(k1: seq<Key>, c1: seq<Tree>, m: Key, k2: seq<Key>, c2: seq<Tree>)
    requires Separated(k1, c1) && Separated(k2, c2)
    requires m == HighKey(c1[|c1| - 1]) && m <= LowKey(c2[0])
    ensures Separated(k1 + [m] + k2, c1 + c2)
  {
    var keys, kids := k1 + [m] + k2, c1 + c2;
    forall i | 0 <= i < |keys| ensures keys[i] == HighKey(kids[i]) && keys[i] <= LowKey(kids[i + 1]) {
      if i > |k1| {
        var j := i - |c1|;
        assert keys[i] == k2[j] && kids[i] == c2[j] && kids[i + 1] == c2[j + 1];
      }
    }
  }

  lemma {:induction false} SeparatedSplit(keys: seq<Key>, kids: seq<Tree>, k: nat)
    requires Separated(keys, kids) && k < |keys|
    ensures Separated(keys[..k], kids[..k + 1]) && Separated(keys[k + 1..], kids[k + 1..])
    ensures keys[k] == HighKey(kids[..k + 1][k]) && keys[k] <= LowKey(kids[k + 1..][0])
  {
    var keys', kids' := keys[k + 1..], kids[k + 1..];
    forall i | 0 <= i < |keys'| ensures keys'[i] == HighKey(kids'[i]) && keys'[i] <= LowKey(kids'[i + 1]) {
      assert keys'[i] == keys[k + 1 + i] && kids'[i + 1] == kids[k + 1 + i + 1];
    }
  }

  /** The run of slots of both neighbours, whatever its length. */
  lemma {:induction false} Joined(x: Tree, m: Key, y: Tree)
    requires Neighbours(x, m, y)
    requires Valid(x, x.MinSlots() - 1) && Valid(y, y.MinSlots() - 1)
    ensures Contents(MergePair(x, m, y)) == Contents(x) + Contents(y)
    ensures x.Leaf? ==> SortedItems(x.items + y.items)
    ensures x.Inner? ==> Separated(x.keys + [m] + y.keys, x.kids + y.kids) && KidsValid(x.level, x.kids + y.kids, -1)
  {
    if x.Leaf? {
      SortedConcat(x.items, y.items);
    } else {
      InnerEnds(x.keys, x.kids);
      InnerEnds(y.keys, y.kids);
      SeparatedConcat(x.keys, x.kids, m, y.keys, y.kids);
      KidsConcat(x.level, x.kids, y.kids);
      FlatConcat(x.kids, y.kids);
    }
  }

  lemma {:induction false} KidsConcat(level: nat, a: seq<Tree>, b: seq<Tree>)
    requires KidsValid(level, a, -1) && KidsValid(level, b, -1)
    ensures KidsValid(level, a + b, -1)
  {
    var kids := a + b;
    forall i | 0 <= i < |kids|
      ensures kids[i].Level() + 1 == level && Valid(kids[i], kids[i].MinSlots())
    {
      if i < |a| { assert kids[i] == a[i]; } else { assert kids[i] == b[i - |a|]; }
    }
  }

  lemma {:induction false} MergePairOk(x: Tree, m: Key, y: Tree)
    requires Neighbours(x, m, y)
    requires Valid(x, x.MinSlots() - 1) && Valid(y, y.MinSlots() - 1)
    requires x.Use() + y.Use() < 2 * x.MinSlots()
    ensures Valid(MergePair(x, m, y), x.MinSlots())
    ensures Contents(MergePair(x, m, y)) == Contents(x) + Contents(y)
  {
    Joined(x, m, y);
  }

  /** What a shift must give back. */
  ghost predicate ShiftedOk(x: Tree, y: Tree, r: Shifted) {
    && Valid(r.left, r.left.MinSlots()) && Valid(r.right, r.right.MinSlots())
    && r.left.Level() == x.Level() && r.right.Level() == y.Level()
    && Neighbours(r.left, r.separator, r.right)
    && Contents(r.left) + Contents(r.right) == Contents(x) + Contents(y)
  }

  /** Two inner nodes made of separated runs of children. */
  lemma {:induction false} InnerPair(x: Tree, y: Tree, k1: seq<Key>, c1: seq<Tree>, m: Key, k2: seq<Key>, c2: seq<Tree>)
    requires x.Inner? && y.Inner? && x.level == y.level > 0
    requires Separated(k1, c1) && Separated(k2, c2)
    requires KidsValid(x.level, c1, -1) && KidsValid(x.level, c2, -1)
    requires Flat(c1) != [] && m == LastKey(Flat(c1))
    requires Flat(c2) != [] && m <= Flat(c2)[0].key
    requires Flat(c1) + Flat(c2) == Contents(x) + Contents(y)
    requires MIN_INNER_SLOTS <= |k1| <= INNER_SLOT_MAX && MIN_INNER_SLOTS <= |k2| <= INNER_SLOT_MAX
    ensures ShiftedOk(x, y, Shifted(Inner(x.ref, x.level, k1, c1), m, Inner(y.ref, y.level, k2, c2)))
  {
    hide KidsValid, Flat;
  }

  lemma {:induction false} KidsCut(level: nat, kids: seq<Tree>, k: nat)
    requires KidsValid(level, kids, -1) && k <= |kids|
    ensures KidsValid(level, kids[..k], -1) && KidsValid(level, kids[k..], -1)
  {
    hide Valid;
    var part := kids[k..];
    forall i | 0 <= i < |part| ensures part[i].Level() + 1 == level && Valid(part[i], part[i].MinSlots()) {
      assert part[i] == kids[k + i];
    }
  }

  /** The joined run of slots, divided again before slot `k`; an inner cut lifts key `k` out. */
  function Cut(x: Tree, m: Key, y: Tree, k: nat): Shifted
    requires x.Leaf? <==> y.Leaf?
    requires x.Inner? ==> |x.kids| == |x.keys| + 1 && |y.kids| == |y.keys| + 1
    requires 0 < k < x.Use() + y.Use()
  {
    if x.Leaf? then
      var items := x.items + y.items;
      Shifted(Leaf(x.ref, items[..k]), LastKey(items[..k]), Leaf(y.ref, items[k..]))
    else
      var keys, kids := x.keys + [m] + y.keys, x.kids + y.kids;
      Shifted(Inner(x.ref, x.level, keys[..k], kids[..k + 1]), keys[k],
              Inner(y.ref, y.level, keys[k + 1..], kids[k + 1..]))
  }

  /** Any cut that leaves both halves filled well enough is good. */
  lemma {:induction false} CutOk(x: Tree, m: Key, y: Tree, k: nat)
    requires Neighbours(x, m, y)
    requires Valid(x, x.MinSlots() - 1) && Valid(y, y.MinSlots() - 1)
    requires x.Inner? ==> |x.kids| == |x.keys| + 1 && |y.kids| == |y.keys| + 1
    requires var n := x.Use() + y.Use();
      && x.MinSlots() <= k <= x.MaxSlots() && k < n
      && x.MinSlots() <= n - k <= x.MaxSlots()
    ensures ShiftedOk(x, y, Cut(x, m, y, k))
  {
    if x.Leaf? { CutLeaf(x, m, y, k); } else { CutInner(x, m, y, k); }
  }

  lemma {:induction false} CutInner(x: Tree, m: Key, y: Tree, k: nat)
    requires Neighbours(x, m, y) && x.Inner? && y.Inner?
    requires Valid(x, x.MinSlots() - 1) && Valid(y, y.MinSlots() - 1)
    requires |x.kids| == |x.keys| + 1 && |y.kids| == |y.keys| + 1
    requires var n := x.Use() + y.Use();
      0 < k < n && MIN_INNER_SLOTS <= k <= INNER_SLOT_MAX && MIN_INNER_SLOTS <= n - k <= INNER_SLOT_MAX
    ensures ShiftedOk(x, y, Cut(x, m, y, k))
  {
    hide KidsValid, Flat, HighKey, LowKey, ShiftedOk, Valid;
    var keys, kids := x.keys + [m] + y.keys, x.kids + y.kids;
    Bounds(x, x.MinSlots() - 1);
    Bounds(y, y.MinSlots() - 1);
    Joined(x, m, y);
    assert Flat(kids) == Contents(x) + Contents(y);
    CutSeparated(keys, kids, k);
    KidsCut(x.level, kids, k + 1);
    InnerPair(x, y, keys[..k], kids[..k + 1], keys[k], keys[k + 1..], kids[k + 1..]);
  }

  lemma {:induction false} CutSeparated(keys: seq<Key>, kids: seq<Tree>, k: nat)
    requires Separated(keys, kids) && k < |keys|
    ensures Separated(keys[..k], kids[..k + 1]) && Separated(keys[k + 1..], kids[k + 1..])
    ensures Flat(kids[..k + 1]) + Flat(kids[k + 1..]) == Flat(kids)
    ensures Flat(kids[..k + 1]) != [] && keys[k] == LastKey(Flat(kids[..k + 1]))
    ensures Flat(kids[k + 1..]) != [] && keys[k] <= Flat(kids[k + 1..])[0].key
  {
    SeparatedSplit(keys, kids, k);
    InnerEnds(keys[..k], kids[..k + 1]);
    InnerEnds(keys[k + 1..], kids[k + 1..]);
    assert kids == kids[..k + 1] + kids[k + 1..];
    FlatConcat(kids[..k + 1], kids[k + 1..]);
  }

  lemma {:induction false} CutLeaf(x: Tree, m: Key, y: Tree, k: nat)
    requires Neighbours(x, m, y) && x.Leaf?
    requires Valid(x, x.MinSlots() - 1) && Valid(y, y.MinSlots() - 1)
    requires var n := x.Use() + y.Use();
      0 < k < n && MIN_LEAF_SLOTS <= k <= LEAF_SLOT_MAX && MIN_LEAF_SLOTS <= n - k <= LEAF_SLOT_MAX
    ensures ShiftedOk(x, y, Cut(x, m, y, k))
  {
    var items := x.items + y.items;
    Joined(x, m, y);
    assert items == items[..k] + items[k..];
    SortedConcat(items[..k], items[k..]);
  }

  /** Both shifts cut the joined run of slots at another place. */
  lemma {:induction false} ShiftLeftCuts(x: Tree, m: Key, y: Tree)
    requires x.Leaf? <==> y.Leaf?
    requires x.Use() + 2 <= y.Use()
    requires x.Inner? ==> |x.kids| == |x.keys| + 1 && |y.kids| == |y.keys| + 1
    ensures ShiftLeft(x, m, y) == Cut(x, m, y, x.Use() + (y.Use() - x.Use()) / 2)
  {
    var n := (y.Use() - x.Use()) / 2;
    var k := x.Use() + n;
    if x.Leaf? {
      var items := x.items + y.items;
      assert items[..k] == x.items + y.items[..n] && items[k..] == y.items[n..];
    } else {
      var keys, kids := x.keys + [m] + y.keys, x.kids + y.kids;
      assert keys[..k] == x.keys + [m] + y.keys[..n - 1] && keys[k + 1..] == y.keys[n..];
      assert kids[..k + 1] == x.kids + y.kids[..n] && kids[k + 1..] == y.kids[n..];
    }
  }

  lemma {:induction false} ShiftRightCuts(x: Tree, m: Key, y: Tree)
    requires x.Leaf? <==> y.Leaf?
    requires y.Use() + 2 <= x.Use()
    requires x.Inner? ==> |x.kids| == |x.keys| + 1 && |y.kids| == |y.keys| + 1
    ensures ShiftRight(x, m, y) == Cut(x, m, y, x.Use() - (x.Use() - y.Use()) / 2)
  {
    var k := x.Use() - (x.Use() - y.Use()) / 2;
    if x.Leaf? {
      var items := x.items + y.items;
      assert items[..k] == x.items[..k] && items[k..] == x.items[k..] + y.items;
    } else {
      var keys, kids := x.keys + [m] + y.keys, x.kids + y.kids;
      assert keys[..k] == x.keys[..k] && keys[k + 1..] == x.keys[k + 1..] + [m] + y.keys;
      assert kids[..k + 1] == x.kids[..k + 1] && kids[k + 1..] == x.kids[k + 1..] + y.kids;
    }
  }

  lemma {:induction false} ShiftLeftOk(x: Tree, m: Key, y: Tree)
    requires Neighbours(x, m, y)
    requires Valid(x, x.MinSlots() - 1) && Valid(y, y.MinSlots())
    requires x.IsUnderflow() && !y.IsFew()
    requires y.Inner? ==> |y.kids| == |y.keys| + 1
    ensures ShiftedOk(x, y, ShiftLeft(x, m, y))
  {
    hide Valid, ShiftedOk, Contents, HighKey, LowKey, Cut, ShiftLeft;
    Bounds(x, x.MinSlots() - 1);
    Bounds(y, y.MinSlots());
    ValidWeaken(y, y.MinSlots(), y.MinSlots() - 1);
    ShiftLeftCuts(x, m, y);
    CutOk(x, m, y, x.Use() + (y.Use() - x.Use()) / 2);
  }

  lemma {:induction false} ShiftRightOk(x: Tree, m: Key, y: Tree)
    requires Neighbours(x, m, y)
    requires Valid(x, x.MinSlots()) && Valid(y, y.MinSlots() - 1)
    requires y.IsUnderflow() && !x.IsFew()
    requires x.Inner? ==> |x.kids| == |x.keys| + 1
    ensures ShiftedOk(x, y, ShiftRight(x, m, y))
  {
    hide Valid, ShiftedOk, Contents, HighKey, LowKey, Cut, ShiftRight;
    Bounds(x, x.MinSlots());
    Bounds(y, y.MinSlots() - 1);
    ValidWeaken(x, x.MinSlots(), x.MinSlots() - 1);
    ShiftRightCuts(x, m, y);
    CutOk(x, m, y, x.Use() - (x.Use() - y.Use()) / 2);
  }

  lemma {:induction false} ValidWeaken(t: Tree, few: nat, fewer: nat)
    requires Valid(t, few) && fewer <= few
    ensures Valid(t, fewer)
  {
    hide Separated, KidsValid;
  }
}

/** Erasing one pair: `erase_one` and `erase_one_descend` on values. */
module BTreeErase {
  import opened BTreeNode
  import opened BTreeItems
  import opened BTreeTree
  import opened BTreeBalance
  import opened Options

  /** A node beside the current one and the parent pointer handed down with it. */
  datatype Cousin = Cousin(node: Option<Tree>, parent: Node?)

  datatype Action = MergeLeft | MergeRight | TakeRight | TakeLeft

  /** The choice made for an underflowing node with at least one neighbour. */
  function Decide(left: Cousin, right: Cousin, parent: Node?): Action
    requires left.node.None? <==> left.parent == null
    requires right.node.None? <==> right.parent == null
    requires left.node.Some? || right.node.Some?
  {
    if (left.node.None? || left.node.value.IsFew()) && (right.node.None? || right.node.value.IsFew()) then
      if left.parent == parent then MergeLeft else MergeRight
    else if left.node.Some? && left.node.value.IsFew() && right.node.Some? && !right.node.value.IsFew() then
      if right.parent == parent then TakeRight else MergeLeft
    else if left.node.Some? && !left.node.value.IsFew() && right.node.Some? && right.node.value.IsFew() then
      if left.parent == parent then TakeLeft else MergeRight
    else if left.parent == right.parent then
      if left.node.value.Use() <= right.node.value.Use() then TakeRight else TakeLeft
    else
      if left.parent == parent then TakeLeft else TakeRight
  }

  /**
   * The left neighbour handed down to child `s`. At slot 0 the original takes
   * `childid[slotuse - 1]` of the outer left node, which is its last child but one.
   */
  function LeftOf(t: Tree, s: nat, left: Cousin): Cousin
    requires t.Inner? && s < |t.kids|
    requires left.node.Some? ==> left.node.value.Inner? && 0 < |left.node.value.keys| < |left.node.value.kids|
  {
    if s > 0 then Cousin(Some(t.kids[s - 1]), t.ref)
    else if left.node.None? then left
    else Cousin(Some(left.node.value.kids[|left.node.value.keys| - 1]), left.parent)
  }

  function RightOf(t: Tree, s: nat, right: Cousin): Cousin
    requires t.Inner? && s < |t.kids|
    requires right.node.Some? ==> right.node.value.Inner? && right.node.value.kids != []
  {
    if s + 1 < |t.kids| then Cousin(Some(t.kids[s + 1]), t.ref)
    else if right.node.None? then right
    else Cousin(Some(right.node.value.kids[0]), right.parent)
  }

  /** A cousin is a filled node of the same level under a parent outside of `t`. */
  ghost predicate CousinOk(t: Tree, c: Cousin) {
    && (c.node.None? <==> c.parent == null)
    && c.parent !in Foot(t)
    && (c.node.Some? ==>
          && c.node.value.Level() == t.Level()
          && (c.node.value.Leaf? <==> t.Leaf?)
          && Valid(c.node.value, c.node.value.MinSlots()))
  }

  lemma {:induction false} ChildCousins(t: Tree, few: nat, s: nat, left: Cousin, right: Cousin)
    requires t.Inner? && Valid(t, few) && few > 0 && Apart(t)
    requires CousinOk(t, left) && CousinOk(t, right)
    requires s < |t.kids|
    ensures left.node.Some? ==> left.node.value.Inner? && 0 < |left.node.value.keys| < |left.node.value.kids|
    ensures right.node.Some? ==> right.node.value.Inner? && right.node.value.kids != []
    ensures CousinOk(t.kids[s], LeftOf(t, s, left))
    ensures CousinOk(t.kids[s], RightOf(t, s, right))
    ensures s > 0 <==> LeftOf(t, s, left).parent == t.ref
    ensures s < |t.keys| <==> RightOf(t, s, right).parent == t.ref
  {
    hide Separated;
    FootAt(t.kids, s);
    KidAt(t, few, s);
    if s > 0 { KidAt(t, few, s - 1); }
    if s < |t.keys| { KidAt(t, few, s + 1); }
    if left.node.Some? {
      KidAt(left.node.value, left.node.value.MinSlots(), |left.node.value.keys| - 1);
    }
    if right.node.Some? {
      KidAt(right.node.value, right.node.value.MinSlots(), 0);
    }
  }

  lemma {:induction false} KidAt(t: Tree, few: nat, s: nat)
    requires t.Inner? && Valid(t, few) && s <= |t.keys|
    ensures s < |t.kids| && t.kids[s].Level() + 1 == t.level && Valid(t.kids[s], t.kids[s].MinSlots())
    ensures t.kids[s].Leaf? <==> t.level == 1
  {
    hide Separated;
    Bounds(t, few);
    Bounds(t.kids[s], t.kids[s].MinSlots());
  }

  /** Whether the node named by `act` is a child of `t` beside child `s`, and filled as the action needs. */
  ghost predicate Local(t: Tree, s: nat, act: Action) {
    && t.Inner? && s < |t.kids|
    && match act
       case MergeLeft => s > 0 && t.kids[s - 1].IsFew()
       case TakeLeft => s > 0 && !t.kids[s - 1].IsFew()
       case MergeRight => s + 1 < |t.kids| && t.kids[s + 1].IsFew()
       case TakeRight => s + 1 < |t.kids| && !t.kids[s + 1].IsFew()
  }

  /**
   * Whatever the outer cousins look like, the choice never leaves the parent:
   * the node merged with or taken from is always the next or the previous child.
   */
  lemma {:induction false} DecideLocal(t: Tree, few: nat, s: nat, left: Cousin, right: Cousin)
    requires t.Inner? && Valid(t, few) && few > 0 && Apart(t)
    requires CousinOk(t, left) && CousinOk(t, right)
    requires s < |t.kids|
    ensures left.node.Some? ==> left.node.value.Inner? && 0 < |left.node.value.keys| < |left.node.value.kids|
    ensures right.node.Some? ==> right.node.value.Inner? && right.node.value.kids != []
    ensures LeftOf(t, s, left).node.Some? || RightOf(t, s, right).node.Some?
    ensures LeftOf(t, s, left).node.None? <==> LeftOf(t, s, left).parent == null
    ensures RightOf(t, s, right).node.None? <==> RightOf(t, s, right).parent == null
    ensures Local(t, s, Decide(LeftOf(t, s, left), RightOf(t, s, right), t.ref))
  {
    hide Separated;
    ChildCousins(t, few, s, left, right);
  }

  // Carrying the action out in the parent

  /** Children `i` and `i + 1` become one; over leaves the separator left of the gap is refreshed. */
  function MergeAt(t: Tree, i: nat): Tree
    requires t.Inner? && i < |t.keys| && |t.kids| == |t.keys| + 1
    requires t.kids[i].Leaf? <==> t.kids[i + 1].Leaf?
  {
    var z := MergePair(t.kids[i], t.keys[i], t.kids[i + 1]);
    var keys := t.keys[..i] + t.keys[i + 1..];
    var keys' := if t.level == 1 && i < |keys| && z.Leaf? && z.items != [] then keys[i := LastKey(z.items)] else keys;
    Inner(t.ref, t.level, keys', t.kids[..i] + [z] + t.kids[i + 2..])
  }

  function PutPair(t: Tree, i: nat, r: Shifted): Tree
    requires t.Inner? && i < |t.keys| && |t.kids| == |t.keys| + 1
  {
    Inner(t.ref, t.level, t.keys[i := r.separator], t.kids[..i] + [r.left, r.right] + t.kids[i + 2..])
  }

  ghost predicate CanShift(x: Tree, y: Tree) {
    && (x.Leaf? <==> y.Leaf?)
    && (x.Inner? ==> |x.kids| == |x.keys| + 1 && |y.kids| == |y.keys| + 1)
  }

  ghost predicate RebalanceDefined(t: Tree, s: nat, act: Action) {
    && t.Inner? && s < |t.kids| && |t.kids| == |t.keys| + 1
    && (act.MergeLeft? || act.TakeLeft? ==> s > 0 && CanShift(t.kids[s - 1], t.kids[s]))
    && (act.MergeRight? || act.TakeRight? ==> s + 1 < |t.kids| && CanShift(t.kids[s], t.kids[s + 1]))
    && (act.TakeLeft? ==> t.kids[s].Use() + 2 <= t.kids[s - 1].Use())
    && (act.TakeRight? ==> t.kids[s].Use() + 2 <= t.kids[s + 1].Use())
  }

  function Rebalance(t: Tree, s: nat, act: Action): Tree
    requires RebalanceDefined(t, s, act)
  {
    match act
    case MergeLeft => MergeAt(t, s - 1)
    case MergeRight => MergeAt(t, s)
    case TakeRight => PutPair(t, s, ShiftLeft(t.kids[s], t.keys[s], t.kids[s + 1]))
    case TakeLeft => PutPair(t, s - 1, ShiftRight(t.kids[s - 1], t.keys[s - 1], t.kids[s]))
  }

  /** Two children replaced by two others that hold the same pairs. */
  lemma {:induction false} PutPairOk(t: Tree, few: nat, s: nat, i: nat, r: Shifted)
    requires ValidBut(t, few, s) && i < |t.keys| && (s == i || s == i + 1)
    requires ShiftedOk(t.kids[i], t.kids[i + 1], r)
    ensures Valid(PutPair(t, i, r), few)
    ensures Contents(PutPair(t, i, r)) == Contents(t)
  {
    var t' := PutPair(t, i, r);
    PutPairSeparated(t.keys, t.kids, i, r);
    PutPairKids(t.level, t.kids, s, i, r);
  }

  lemma {:induction false} PutPairSeparated(keys: seq<Key>, kids: seq<Tree>, i: nat, r: Shifted)
    requires Separated(keys, kids) && i < |keys|
    requires Neighbours(r.left, r.separator, r.right)
    requires Contents(r.left) + Contents(r.right) == Contents(kids[i]) + Contents(kids[i + 1])
    ensures Separated(keys[i := r.separator], kids[..i] + [r.left, r.right] + kids[i + 2..])
    ensures Flat(kids[..i] + [r.left, r.right] + kids[i + 2..]) == Flat(kids)
  {
    hide Contents;
    var keys', kids' := keys[i := r.separator], kids[..i] + [r.left, r.right] + kids[i + 2..];
    PairEnds(kids[i], kids[i + 1], r);
    PutPairFlat(kids, i, r.left, r.right);
    forall k | 0 <= k < |keys'| ensures keys'[k] == HighKey(kids'[k]) && keys'[k] <= LowKey(kids'[k + 1]) {
      hide HighKey, LowKey;
      assert keys[k] == HighKey(kids[k]) && keys[k] <= LowKey(kids[k + 1]);
    }
  }

  lemma {:induction false} PairEnds(x: Tree, y: Tree, r: Shifted)
    requires Contents(x) != [] && Contents(y) != [] && Contents(r.left) != [] && Contents(r.right) != []
    requires Contents(r.left) + Contents(r.right) == Contents(x) + Contents(y)
    ensures LowKey(r.left) == LowKey(x) && HighKey(r.right) == HighKey(y)
  {
    hide Contents;
    var both := Contents(x) + Contents(y);
    assert both[0] == Contents(x)[0] == Contents(r.left)[0];
    assert both[|both| - 1] == Contents(y)[|Contents(y)| - 1];
    assert both[|both| - 1] == (Contents(r.left) + Contents(r.right))[|both| - 1];
  }

  lemma {:induction false} PutPairFlat(kids: seq<Tree>, i: nat, x: Tree, y: Tree)
    requires i + 1 < |kids|
    requires Contents(x) + Contents(y) == Contents(kids[i]) + Contents(kids[i + 1])
    ensures Flat(kids[..i] + [x, y] + kids[i + 2..]) == Flat(kids)
  {
    hide *;
    var kids' := kids[..i] + [x, y] + kids[i + 2..];
    FlatAtTwo(kids, i);
    FlatAtTwo(kids', i);
    assert kids'[..i] == kids[..i] && kids'[i + 2..] == kids[i + 2..];
  }

  lemma {:induction false} PutPairKids(level: nat, kids: seq<Tree>, s: nat, i: nat, r: Shifted)
    requires KidsValid(level, kids, s) && i + 1 < |kids| && (s == i || s == i + 1)
    requires ShiftedOk(kids[i], kids[i + 1], r)
    ensures KidsValid(level, kids[..i] + [r.left, r.right] + kids[i + 2..], -1)
  {
    hide Valid, Neighbours, Contents;
    var kids' := kids[..i] + [r.left, r.right] + kids[i + 2..];
    forall k | 0 <= k < |kids'| ensures kids'[k].Level() + 1 == level && Valid(kids'[k], kids'[k].MinSlots()) {
      if k != i && k != i + 1 { assert kids'[k] == kids[k]; }
    }
  }

  /** Two children replaced by one that holds the pairs of both. */
  lemma {:induction false} MergeAtOk(t: Tree, few: nat, s: nat, i: nat)
    requires ValidBut(t, few, s) && few > 0 && i < |t.keys| && (s == i || s == i + 1)
    requires t.kids[i].Leaf? <==> t.kids[i + 1].Leaf?
    requires var z := MergePair(t.kids[i], t.keys[i], t.kids[i + 1]);
      && z.Level() + 1 == t.level && Valid(z, z.MinSlots())
      && Contents(z) == Contents(t.kids[i]) + Contents(t.kids[i + 1])
    ensures Valid(MergeAt(t, i), few - 1)
    ensures Contents(MergeAt(t, i)) == Contents(t)
  {
    hide KidsValid, HighKey, LowKey, Flat;
    var z := MergePair(t.kids[i], t.keys[i], t.kids[i + 1]);
    MergeAtSeparated(t.keys, t.kids, i, z);
    MergeAtKids(t.level, t.kids, s, i, z);
    SeparatorFixed(t, i);
  }

  /** The separator refreshed over leaves already had the right value. */
  lemma {:induction false} SeparatorFixed(t: Tree, i: nat)
    requires t.Inner? && |t.kids| == |t.keys| + 1 && i < |t.keys|
    requires t.kids[i].Leaf? <==> t.kids[i + 1].Leaf?
    requires var z := MergePair(t.kids[i], t.keys[i], t.kids[i + 1]);
      Contents(z) != [] && (i + 1 < |t.keys| ==> t.keys[i + 1] == HighKey(z))
    ensures MergeAt(t, i).keys == t.keys[..i] + t.keys[i + 1..]
  {
    var keys := t.keys[..i] + t.keys[i + 1..];
    if i < |keys| { assert keys[i] == t.keys[i + 1]; }
  }

  lemma {:induction false} MergeAtSeparated(keys: seq<Key>, kids: seq<Tree>, i: nat, z: Tree)
    requires Separated(keys, kids) && i < |keys|
    requires Contents(z) == Contents(kids[i]) + Contents(kids[i + 1])
    ensures Separated(keys[..i] + keys[i + 1..], kids[..i] + [z] + kids[i + 2..])
    ensures Flat(kids[..i] + [z] + kids[i + 2..]) == Flat(kids)
    ensures i + 1 < |keys| ==> keys[i + 1] == HighKey(z)
  {
    hide Contents;
    var keys', kids' := keys[..i] + keys[i + 1..], kids[..i] + [z] + kids[i + 2..];
    assert LowKey(z) == LowKey(kids[i]) && HighKey(z) == HighKey(kids[i + 1]);
    MergeAtFlat(kids, i, z);
    forall k | 0 <= k < |keys'| ensures keys'[k] == HighKey(kids'[k]) && keys'[k] <= LowKey(kids'[k + 1]) {
      MergedSeparator(keys, kids, i, z, k);
    }
  }

  lemma {:induction false} MergedSeparator(keys: seq<Key>, kids: seq<Tree>, i: nat, z: Tree, k: nat)
    requires Separated(keys, kids) && i < |keys| && k < |keys| - 1
    requires Contents(z) != [] && LowKey(z) == LowKey(kids[i]) && HighKey(z) == HighKey(kids[i + 1])
    ensures var keys', kids' := keys[..i] + keys[i + 1..], kids[..i] + [z] + kids[i + 2..];
      Contents(kids'[k]) != [] && Contents(kids'[k + 1]) != [] && keys'[k] == HighKey(kids'[k]) && keys'[k] <= LowKey(kids'[k + 1])
  {
    hide Contents, HighKey, LowKey;
    var j := if k < i then k else k + 1;
    assert keys[j] == HighKey(kids[j]) && keys[j] <= LowKey(kids[j + 1]);
  }

  lemma {:induction false} MergeAtFlat(kids: seq<Tree>, i: nat, z: Tree)
    requires i + 1 < |kids| && Contents(z) == Contents(kids[i]) + Contents(kids[i + 1])
    ensures Flat(kids[..i] + [z] + kids[i + 2..]) == Flat(kids)
  {
    hide *;
    var kids' := kids[..i] + [z] + kids[i + 2..];
    FlatAtTwo(kids, i);
    FlatAt(kids', i);
    assert kids'[..i] == kids[..i] && kids'[i + 1..] == kids[i + 2..];
  }

  lemma {:induction false} MergeAtKids(level: nat, kids: seq<Tree>, s: nat, i: nat, z: Tree)
    requires KidsValid(level, kids, s) && i + 1 < |kids| && (s == i || s == i + 1)
    requires z.Level() + 1 == level && Valid(z, z.MinSlots())
    ensures KidsValid(level, kids[..i] + [z] + kids[i + 2..], -1)
  {
    hide Valid;
    var kids' := kids[..i] + [z] + kids[i + 2..];
    forall k | 0 <= k < |kids'| ensures kids'[k].Level() + 1 == level && Valid(kids'[k], kids'[k].MinSlots()) {
      if k < i { assert kids'[k] == kids[k]; } else if k > i { assert kids'[k] == kids[k + 1]; }
    }
  }

  lemma {:induction false} ChildrenBeside(t: Tree, few: nat, s: nat, i: nat)
    requires ValidBut(t, few, s) && i < |t.keys|
    ensures Neighbours(t.kids[i], t.keys[i], t.kids[i + 1])
    ensures CanShift(t.kids[i], t.kids[i + 1])
    ensures t.kids[i].Level() + 1 == t.level
    ensures Valid(t.kids[i], t.kids[i].MinSlots() - if s == i then 1 else 0)
    ensures Valid(t.kids[i + 1], t.kids[i + 1].MinSlots() - if s == i + 1 then 1 else 0)
  {
    hide Contents;
    Bounds(t.kids[i], t.kids[i].MinSlots() - if s == i then 1 else 0);
    Bounds(t.kids[i + 1], t.kids[i + 1].MinSlots() - if s == i + 1 then 1 else 0);
  }

  /** The child that lost a slot and the action chosen for it. */
  ghost predicate Troubled(t: Tree, few: nat, s: nat, act: Action) {
    && few > 0 && ValidBut(t, few, s) && Local(t, s, act)
    && t.kids[s].IsUnderflow()
  }

  lemma {:induction false} RebalanceReady(t: Tree, few: nat, s: nat, act: Action)
    requires Troubled(t, few, s, act)
    ensures RebalanceDefined(t, s, act)
  {
    hide Separated, KidsValid, Contents;
    if s > 0 { ChildrenBeside(t, few, s, s - 1); }
    if s + 1 < |t.kids| { ChildrenBeside(t, few, s, s); }
  }

  /** Every action repairs the underflow, keeps the pairs, and costs the parent at most one slot. */
  lemma {:induction false} RebalanceOk(t: Tree, few: nat, s: nat, act: Action)
    requires Troubled(t, few, s, act)
    ensures RebalanceDefined(t, s, act)
    ensures Valid(Rebalance(t, s, act), few - 1)
    ensures Contents(Rebalance(t, s, act)) == Contents(t)
    ensures Rebalance(t, s, act).ref == t.ref && Rebalance(t, s, act).Level() == t.Level()
  {
    hide KidsValid, Contents, Valid, Separated, Neighbours, MergePair, ShiftLeft, ShiftRight;
    RebalanceReady(t, few, s, act);
    var i := if act.MergeLeft? || act.TakeLeft? then s - 1 else s;
    ChildrenBeside(t, few, s, i);
    var x, m, y := t.kids[i], t.keys[i], t.kids[i + 1];
    match act
    case MergeLeft | MergeRight =>
      MergedOk(t, few, s, i);
    case TakeRight =>
      ShiftLeftOk(x, m, y);
      PutPairOk(t, few, s, i, ShiftLeft(x, m, y));
      ValidWeaken(Rebalance(t, s, act), few, few - 1);
    case TakeLeft =>
      ShiftRightOk(x, m, y);
      PutPairOk(t, few, s, i, ShiftRight(x, m, y));
      ValidWeaken(Rebalance(t, s, act), few, few - 1);
  }

  lemma {:induction false} MergedOk(t: Tree, few: nat, s: nat, i: nat)
    requires few > 0 && ValidBut(t, few, s) && i < |t.keys| && (s == i || s == i + 1)
    requires t.kids[s].IsUnderflow() && t.kids[if s == i then i + 1 else i].IsFew()
    ensures t.kids[i].Leaf? <==> t.kids[i + 1].Leaf?
    ensures Valid(MergeAt(t, i), few - 1)
    ensures Contents(MergeAt(t, i)) == Contents(t)
  {
    hide KidsValid, Contents, Valid, Separated, MergeAt;
    ChildrenBeside(t, few, s, i);
    var x, m, y := t.kids[i], t.keys[i], t.kids[i + 1];
    if s == i { ValidWeaken(y, y.MinSlots(), y.MinSlots() - 1); }
    else { ValidWeaken(x, x.MinSlots(), x.MinSlots() - 1); }
    MergePairOk(x, m, y);
    MergeAtOk(t, few, s, i);
  }

  // The recursion

  datatype Erased = NotFound | Done(node: Tree, last: Option<Key>)

  /** A leaf loses the pair at the slot found; a changed last key is reported. */
  function EraseInLeaf(t: Tree, key: Key): Erased
    requires t.Leaf?
  {
    var slot := FindLower(KeysOf(t.items), key);
    if slot >= |t.items| || t.items[slot].key != key then NotFound
    else
      var items := t.items[..slot] + t.items[slot + 1..];
      Done(Leaf(t.ref, items), if slot == |items| && items != [] then Some(LastKey(items)) else None)
  }

  /** Child `s` after the removal, with its separator if it is the one that changed. */
  function WithChild(t: Tree, s: nat, child: Tree, last: Option<Key>): Tree
    requires t.Inner? && s < |t.kids|
  {
    Inner(t.ref, t.level,
          if last.Some? && s < |t.keys| then t.keys[s := last.value] else t.keys,
          t.kids[s := child])
  }

  /** What erasing must do to a subtree. */
  ghost predicate ErasedOk(t: Tree, few: nat, key: Key, r: Erased) {
    match r
    case NotFound => !HasKey(Contents(t), key)
    case Done(n, last) =>
      && HasKey(Contents(t), key)
      && n.ref == t.ref && n.Level() == t.Level()
      && few > 0 && Valid(n, few - 1)
      && Contents(n) == RemoveFirst(Contents(t), key)
      && Contents(t) != []
      && (last.Some? ==> Contents(n) != [])
      && (Contents(n) != [] ==> HighKey(n) == if last.Some? then last.value else HighKey(t))
  }

  lemma {:induction false} EraseInLeafOk(t: Tree, few: nat, key: Key)
    requires t.Leaf? && Valid(t, few) && few > 0
    ensures ErasedOk(t, few, key, EraseInLeaf(t, key))
  {
    hide RemoveFirst, FindLower;
    var slot := FindLower(KeysOf(t.items), key);
    forall i | 0 <= i < slot ensures t.items[i].key != key { assert KeysOf(t.items)[i] < key; }
    if slot >= |t.items| || t.items[slot].key != key {
      forall i | slot <= i < |t.items| ensures t.items[i].key != key { assert t.items[slot].key > key; }
    } else {
      RemoveFirstAt(t.items, key, slot);
      SortedWithout(t.items, slot);
    }
  }

  lemma {:induction false} SortedWithout(s: seq<Item>, p: nat)
    requires SortedItems(s) && p < |s|
    ensures SortedItems(s[..p] + s[p + 1..])
  {
    var s' := s[..p] + s[p + 1..];
    forall i, j | 0 <= i < j < |s'| ensures s'[i].key <= s'[j].key {
      assert s'[i] == s[if i < p then i else i + 1] && s'[j] == s[if j < p then j else j + 1];
    }
  }

  /** The children left of slot `s` hold only smaller keys. */
  lemma {:induction false} SmallerBefore(t: Tree, few: nat, key: Key, s: nat)
    requires t.Inner? && Valid(t, few) && s == FindLower(t.keys, key)
    ensures !HasKey(Flat(t.kids[..s]), key)
  {
    hide LowKey, HighKey, Separated, KidsValid;
    if s > 0 {
      ContentsSorted(t, few);
      Bounds(t, few);
      CutSeparated(t.keys, t.kids, s - 1);
      assert t.keys[s - 1] < key;
      SortedConcat(Flat(t.kids[..s]), Flat(t.kids[s..]));
    }
  }

  /** A key missing in child `s` is missing to the right of it as well. */
  lemma {:induction false} AbsentAfter(t: Tree, few: nat, key: Key, s: nat)
    requires t.Inner? && Valid(t, few) && s == FindLower(t.keys, key)
    requires !HasKey(Contents(t.kids[s]), key)
    ensures !HasKey(Flat(t.kids[s + 1..]), key)
  {
    if s < |t.keys| {
      ContentsSorted(t, few);
      CutSeparated(t.keys, t.kids, s);
      SortedConcat(Flat(t.kids[..s + 1]), Flat(t.kids[s + 1..]));
      assert key <= t.keys[s] == HighKey(t.kids[s]);
      assert key < t.keys[s];
    }
  }

  lemma {:induction false} HasKeyConcat(a: seq<Item>, b: seq<Item>, key: Key)
    ensures HasKey(a + b, key) <==> HasKey(a, key) || HasKey(b, key)
  {
    if HasKey(a, key) {
      var i :| 0 <= i < |a| && a[i].key == key;
      assert (a + b)[i].key == key;
    }
    if HasKey(b, key) {
      var i :| 0 <= i < |b| && b[i].key == key;
      assert (a + b)[|a| + i].key == key;
    }
  }

  lemma {:induction false} DescendContents(t: Tree, few: nat, key: Key, s: nat)
    requires t.Inner? && Valid(t, few) && s == FindLower(t.keys, key)
    ensures s < |t.kids|
    ensures HasKey(Contents(t), key) <==> HasKey(Contents(t.kids[s]), key)
    ensures HasKey(Contents(t), key) ==>
              RemoveFirst(Contents(t), key) ==
              Flat(t.kids[..s]) + RemoveFirst(Contents(t.kids[s]), key) + Flat(t.kids[s + 1..])
  {
    hide Valid, Separated, KidsValid, FindLower, HasKey, RemoveFirst;
    Bounds(t, few);
    var a, c, b := Flat(t.kids[..s]), Contents(t.kids[s]), Flat(t.kids[s + 1..]);
    FlatAt(t.kids, s);
    SmallerBefore(t, few, key, s);
    HasKeyConcat(a + c, b, key);
    HasKeyConcat(a, c, key);
    if HasKey(c, key) {
      RemoveFirstConcat(a + c, b, key);
      RemoveFirstConcat(a, c, key);
    } else {
      AbsentAfter(t, few, key, s);
    }
  }

  /** The parent once its child has been replaced: order and contents. */
  lemma {:induction false} WithChildSeparated(t: Tree, few: nat, key: Key, s: nat, c: Tree, last: Option<Key>)
    requires t.Inner? && Valid(t, few) && s < |t.kids|
    requires Contents(c) != [] && HighKey(c) == (if last.Some? then last.value else HighKey(t.kids[s]))
    requires LowKey(t.kids[s]) <= LowKey(c) && HighKey(c) <= HighKey(t.kids[s])
    ensures Separated(WithChild(t, s, c, last).keys, t.kids[s := c])
    ensures Flat(t.kids[s := c]) == Flat(t.kids[..s]) + Contents(c) + Flat(t.kids[s + 1..])
  {
    hide Contents, Flat, KidsValid, LowKey, HighKey;
    var kids := t.kids[s := c];
    FlatAt(kids, s);
    assert kids[..s] == t.kids[..s] && kids[s + 1..] == t.kids[s + 1..];
    ReplacedSeparated(t.keys, t.kids, s, c, if last.Some? && s < |t.keys| then t.keys[s := last.value] else t.keys);
  }

  /** Another child in place, and the separator behind it to match. */
  lemma {:induction false} ReplacedSeparated(keys: seq<Key>, kids: seq<Tree>, s: nat, c: Tree, keys': seq<Key>)
    requires Separated(keys, kids) && s < |kids| && Contents(c) != []
    requires LowKey(kids[s]) <= LowKey(c) && HighKey(c) <= HighKey(kids[s])
    requires |keys'| == |keys| && forall k | 0 <= k < |keys| :: keys'[k] == if k == s then HighKey(c) else keys[k]
    ensures Separated(keys', kids[s := c])
  {
    hide Contents, LowKey, HighKey;
    var kids' := kids[s := c];
    forall k | 0 <= k < |keys'| ensures keys'[k] == HighKey(kids'[k]) && keys'[k] <= LowKey(kids'[k + 1]) {
      assert keys[k] == HighKey(kids[k]) && keys[k] <= LowKey(kids[k + 1]);
    }
  }

  lemma {:induction false} WithChildKids(level: nat, kids: seq<Tree>, s: nat, c: Tree)
    requires KidsValid(level, kids, -1) && s < |kids|
    requires c.Level() + 1 == level && Valid(c, c.MinSlots() - 1)
    ensures KidsValid(level, kids[s := c], s)
  {
    hide Valid;
    var kids' := kids[s := c];
    forall k | 0 <= k < |kids'|
      ensures kids'[k].Level() + 1 == level && Valid(kids'[k], kids'[k].MinSlots() - if k == s then 1 else 0)
    {
      if k != s { assert kids'[k] == kids[k]; }
    }
  }

  lemma {:induction false} RemoveFirstEnds(s: seq<Item>, key: Key)
    requires SortedItems(s) && RemoveFirst(s, key) != []
    ensures s[0].key <= RemoveFirst(s, key)[0].key
    ensures LastKey(RemoveFirst(s, key)) <= LastKey(s)
  {
    if HasKey(s, key) {
      var p := FindLower(KeysOf(s), key);
      forall i | 0 <= i < p ensures s[i].key != key { assert KeysOf(s)[i] < key; }
      var i :| 0 <= i < |s| && s[i].key == key;
      assert p < |s| && s[p].key == key;
      RemoveFirstAt(s, key, p);
    } else {
      RemoveFirstAbsent(s, key);
    }
  }

  lemma {:induction false} ErasedEnds(t: Tree, few: nat, key: Key, c: Tree, last: Option<Key>)
    requires Valid(t, few) && few > 1 && ErasedOk(t, few, key, Done(c, last))
    ensures Contents(c) != [] && LowKey(t) <= LowKey(c) && HighKey(c) <= HighKey(t)
  {
    hide Separated, KidsValid;
    ContentsSorted(t, few);
    ContentsSorted(c, few - 1);
    RemoveFirstEnds(Contents(t), key);
  }

  /** The parent right after the removal in child `s`: only that child may be short of slots. */
  lemma {:induction false} StepOk(t: Tree, few: nat, key: Key, s: nat, c: Tree, last: Option<Key>)
    requires t.Inner? && Valid(t, few) && few > 0 && s == FindLower(t.keys, key)
    requires s < |t.kids| && ErasedOk(t.kids[s], t.kids[s].MinSlots(), key, Done(c, last))
    ensures ValidBut(WithChild(t, s, c, last), few, s)
    ensures Contents(t) != [] && HasKey(Contents(t), key)
    ensures Contents(WithChild(t, s, c, last)) == RemoveFirst(Contents(t), key) != []
    ensures HighKey(WithChild(t, s, c, last)) == if s == |t.keys| && last.Some? then last.value else HighKey(t)
  {
    hide KidsValid, FindLower, HasKey, RemoveFirst, Flat, HighKey;
    var kid, t' := t.kids[s], WithChild(t, s, c, last);
    KidAt(t, few, s);
    ErasedEnds(kid, kid.MinSlots(), key, c, last);
    WithChildSeparated(t, few, key, s, c, last);
    WithChildKids(t.level, t.kids, s, c);
    DescendContents(t, few, key, s);
    InnerHigh(t);
    InnerHigh(t');
    assert s < |t.keys| ==> t'.kids[|t.keys|] == t.kids[|t.keys|];
  }

  /** What a call of `erase_one_descend` may rely on. */
  ghost predicate Descent(t: Tree, few: nat, left: Cousin, right: Cousin) {
    && few > 0 && Valid(t, few) && Apart(t)
    && CousinOk(t, left) && CousinOk(t, right)
  }

  /**
   * `erase_one_descend`: removal in child `s`, then the repair of that child
   * in this node. The reported last key is passed on when no separator of this
   * node names it.
   */
  ghost function EraseNode(t: Tree, few: nat, left: Cousin, right: Cousin, key: Key): (r: Erased)
    requires Descent(t, few, left, right)
    ensures ErasedOk(t, few, key, r)
    decreases t
  {
    if t.Leaf? then
      EraseInLeafOk(t, few, key);
      EraseInLeaf(t, key)
    else
      var s := FindLower(t.keys, key);
      ChildDescent(t, few, left, right, s);
      var l, r := LeftOf(t, s, left), RightOf(t, s, right);
      match EraseNode(t.kids[s], t.kids[s].MinSlots(), l, r, key)
      case NotFound =>
        NotFoundOk(t, few, key, s);
        NotFound
      case Done(c, last) =>
        FinishOk(t, few, left, right, key, s, c, last);
        var t' := WithChild(t, s, c, last);
        var up := if s < |t.keys| then None else last;
        if c.IsUnderflow() then Done(Rebalance(t', s, Decide(l, r, t.ref)), up) else Done(t', up)
  }

  lemma {:induction false} ChildDescent(t: Tree, few: nat, left: Cousin, right: Cousin, s: nat)
    requires Descent(t, few, left, right) && t.Inner? && s <= |t.keys|
    ensures left.node.Some? ==> left.node.value.Inner? && 0 < |left.node.value.keys| < |left.node.value.kids|
    ensures right.node.Some? ==> right.node.value.Inner? && right.node.value.kids != []
    ensures s < |t.kids| && Descent(t.kids[s], t.kids[s].MinSlots(), LeftOf(t, s, left), RightOf(t, s, right))
  {
    hide Separated, KidsValid;
    ChildCousins(t, few, s, left, right);
    KidAt(t, few, s);
    FootAt(t.kids, s);
  }

  lemma {:induction false} NotFoundOk(t: Tree, few: nat, key: Key, s: nat)
    requires t.Inner? && Valid(t, few) && s == FindLower(t.keys, key)
    requires s < |t.kids| && !HasKey(Contents(t.kids[s]), key)
    ensures !HasKey(Contents(t), key)
  {
    DescendContents(t, few, key, s);
  }

  /** The result of an inner node, from the result of the child descended into. */
  lemma {:induction false} FinishOk(t: Tree, few: nat, left: Cousin, right: Cousin, key: Key, s: nat, c: Tree, last: Option<Key>)
    requires Descent(t, few, left, right) && t.Inner? && s == FindLower(t.keys, key)
    requires s < |t.kids| && ErasedOk(t.kids[s], t.kids[s].MinSlots(), key, Done(c, last))
    ensures left.node.Some? ==> left.node.value.Inner? && 0 < |left.node.value.keys| < |left.node.value.kids|
    ensures right.node.Some? ==> right.node.value.Inner? && right.node.value.kids != []
    ensures var l, r, t' := LeftOf(t, s, left), RightOf(t, s, right), WithChild(t, s, c, last);
      var up := if s < |t.keys| then None else last;
      && (l.node.None? <==> l.parent == null) && (r.node.None? <==> r.parent == null)
      && (l.node.Some? || r.node.Some?)
      && (c.IsUnderflow() ==>
            var act := Decide(l, r, t.ref);
            && Troubled(t', few, s, act)
            && RebalanceDefined(t', s, act)
            && ErasedOk(t, few, key, Done(Rebalance(t', s, act), up)))
      && (!c.IsUnderflow() ==> ErasedOk(t, few, key, Done(t', up)))
  {
    hide Separated, KidsValid, Contents, HasKey, RemoveFirst, FindLower, HighKey, Rebalance, Decide;
    DecideLocal(t, few, s, left, right);
    StepOk(t, few, key, s, c, last);
    var t' := WithChild(t, s, c, last);
    if c.IsUnderflow() {
      var act := Decide(LeftOf(t, s, left), RightOf(t, s, right), t.ref);
      assert Local(t', s, act);
      RebalanceOk(t', few, s, act);
      SameHigh(Rebalance(t', s, act), t');
    } else {
      Recovered(t', few, s);
    }
  }

  lemma SameHigh(x: Tree, y: Tree)
    requires Contents(x) == Contents(y) != []
    ensures HighKey(x) == HighKey(y)
  {
  }

  /** A child that did not fall below its minimum leaves nothing to repair. */
  lemma {:induction false} Recovered(t: Tree, few: nat, s: nat)
    requires ValidBut(t, few, s) && s < |t.kids| && !t.kids[s].IsUnderflow() && few > 0
    ensures Valid(t, few - 1)
  {
    hide Separated;
    var c := t.kids[s];
    assert Valid(c, c.MinSlots() - 1);
    forall k | 0 <= k < |t.kids|
      ensures t.kids[k].Level() + 1 == t.level && Valid(t.kids[k], t.kids[k].MinSlots())
    {
    }
  }

  // `erase_one` on the whole tree

  /** The tree, absent when it holds nothing. */
  ghost predicate ValidRoot(root: Option<Tree>) {
    root.Some? ==> Valid(root.value, 1) && Apart(root.value)
  }

  ghost function Pairs(root: Option<Tree>): seq<Item> {
    if root.None? then [] else Contents(root.value)
  }

  /** An emptied root leaf goes away; a root with a single child hands over to it. */
  function TrimRoot(t: Tree): Option<Tree> {
    if t.Leaf? then if t.items == [] then None else Some(t)
    else if t.keys == [] && t.kids != [] then Some(t.kids[0])
    else Some(t)
  }

  ghost function EraseOne(root: Option<Tree>, key: Key): (r: (Option<Tree>, bool))
    requires ValidRoot(root)
  {
    if root.None? then (None, false)
    else
      match EraseNode(root.value, 1, Cousin(None, null), Cousin(None, null), key)
      case NotFound => (root, false)
      case Done(n, _) => (TrimRoot(n), true)
  }

  /**
   * `erase_one` removes exactly the first pair with the key, or changes nothing
   * and says so, and keeps the invariant of the whole tree.
   */
  lemma {:induction false} EraseOneOk(root: Option<Tree>, key: Key)
    requires ValidRoot(root)
    ensures EraseOne(root, key).1 <==> HasKey(Pairs(root), key)
    ensures Pairs(EraseOne(root, key).0) == RemoveFirst(Pairs(root), key)
    ensures EraseOne(root, key).0.Some? ==> Valid(EraseOne(root, key).0.value, 1)
    ensures !EraseOne(root, key).1 ==> EraseOne(root, key).0 == root
    ensures root.None? ==> !EraseOne(root, key).1
  {
    if root.Some? {
      match EraseNode(root.value, 1, Cousin(None, null), Cousin(None, null), key)
      case NotFound => RemoveFirstAbsent(Pairs(root), key);
      case Done(n, _) => TrimRootOk(n);
    }
  }

  lemma {:induction false} TrimRootOk(t: Tree)
    requires Valid(t, 0)
    ensures TrimRoot(t).Some? ==> Valid(TrimRoot(t).value, 1)
    ensures Pairs(TrimRoot(t)) == Contents(t)
  {
    if t.Inner? && t.keys == [] {
      hide Separated;
      var c := t.kids[0];
      assert t.kids == [c];
      FlatOne(c);
      ValidWeaken(c, c.MinSlots(), 1);
    }
  }
}
