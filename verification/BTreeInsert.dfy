/** Inserting one pair: `insert_start` and `insert_descend` on values. */
module BTreeInsert {
  import opened BTreeNode
  import opened BTreeItems
  import opened BTreeTree
  import opened BTreeBalance
  import opened BTreeErase
  import opened Options

  /** A new right sibling and the separator in front of it. */
  datatype Split = Split(key: Key, sibling: Tree)

  /** The node, its new sibling if it had to be split, and where the key is now. */
  datatype Inserted = Inserted(node: Tree, split: Option<Split>, done: bool, place: Node, slot: nat)

  function PutAt(s: seq<Item>, p: nat, x: Item): seq<Item>
    requires p <= |s|
  {
    s[..p] + [x] + s[p..]
  }

  /** The pair goes behind the pairs of the leaf whose keys are not greater. */
  function PutItem(items: seq<Item>, x: Item): seq<Item> {
    PutAt(items, FindUpper(KeysOf(items), x.key), x)
  }

  /** `insert_descend` at a leaf; `spare` is the node taken if the leaf is split. */
  function InsertInLeaf(t: Tree, x: Item, spare: Node): Inserted
    requires t.Leaf?
  {
    var slot := FindLower(KeysOf(t.items), x.key);
    if !ALLOW_DUPLICATES && slot < |t.items| && t.items[slot].key == x.key then
      Inserted(t, None, false, t.ref, slot)
    else if |t.items| == LEAF_SLOT_MAX then
      var a, b := t.items[..|t.items| / 2], t.items[|t.items| / 2..];
      if slot >= |a| then
        Inserted(Leaf(t.ref, a), Some(Split(LastKey(a), Leaf(spare, PutItem(b, x)))), true,
                 spare, FindUpper(KeysOf(b), x.key))
      else
        var a' := PutItem(a, x);
        // the separator is overwritten when the pair becomes the old leaf's last
        var separator := if slot == |a'| - 1 then x.key else LastKey(a);
        Inserted(Leaf(t.ref, a'), Some(Split(separator, Leaf(spare, b))), true, t.ref, FindUpper(KeysOf(a), x.key))
    else
      Inserted(Leaf(t.ref, PutItem(t.items, x)), None, true, t.ref, FindUpper(KeysOf(t.items), x.key))
  }

  /** Child `s` replaced by the two halves it was split into. */
  function PutChild(t: Tree, s: nat, c: Tree, sp: Split): Tree
    requires t.Inner? && s <= |t.keys| && s < |t.kids|
  {
    Inner(t.ref, t.level, t.keys[..s] + [sp.key] + t.keys[s..], t.kids[..s] + [c, sp.sibling] + t.kids[s + 1..])
  }

  /** Where `split_inner_node` cuts, given the slot the new child will go to. */
  function SplitPoint(n: nat, s: nat): nat
    requires n > 0
  {
    var mid := n / 2;
    if s <= mid && mid > n - (mid + 1) then mid - 1 else mid
  }

  /**
   * A full inner node split at `SplitPoint`, and the pending child put into
   * the half it belongs to; when it belongs right at the cut it comes first in
   * the right half and its key becomes the separator.
   */
  function SplitInner(t: Tree, s: nat, c: Tree, sp: Split, spare: Node): (Tree, Split)
    requires t.Inner? && |t.kids| == |t.keys| + 1 && |t.keys| == INNER_SLOT_MAX && s < |t.kids|
  {
    var mid := SplitPoint(|t.keys|, s);
    var kids := t.kids[s := c];
    var left := Inner(t.ref, t.level, t.keys[..mid], kids[..mid + 1]);
    var right := Inner(spare, t.level, t.keys[mid + 1..], kids[mid + 1..]);
    if s == mid + 1 && |left.keys| < |right.keys| then
      (Inner(t.ref, t.level, left.keys + [t.keys[mid]], left.kids + [right.kids[0]]),
       Split(sp.key, Inner(spare, t.level, right.keys, [sp.sibling] + right.kids[1..])))
    else if s >= mid + 1 then
      (left, Split(t.keys[mid], PutChild(right, s - (mid + 1), c, sp)))
    else
      (PutChild(left, s, c, sp), Split(t.keys[mid], right))
  }

  /** The slot at which the run with the new child in it is cut. */
  function CutPoint(n: nat, s: nat): nat
    requires n > 0
  {
    var mid := SplitPoint(n, s);
    if s == mid + 1 && mid < n - (mid + 1) then mid + 1 else if s >= mid + 1 then mid else mid + 1
  }

  /** The two halves are the parts of the run with the new child in it, cut at `CutPoint`. */
  ghost predicate IsCut(t: Tree, s: nat, c: Tree, sp: Split, spare: Node)
    requires t.Inner? && |t.kids| == |t.keys| + 1 && |t.keys| == INNER_SLOT_MAX && s < |t.kids|
  {
    var u, k, r := PutChild(t, s, c, sp), CutPoint(|t.keys|, s), SplitInner(t, s, c, sp, spare);
    && k < |u.keys|
    && r.0 == Inner(t.ref, t.level, u.keys[..k], u.kids[..k + 1])
    && r.1.key == u.keys[k]
    && r.1.sibling == Inner(spare, t.level, u.keys[k + 1..], u.kids[k + 1..])
  }

  /**
   * For odd and even node sizes and every slot, splitting and then placing the
   * new child is the same as placing it first and then cutting, and both
   * halves end up filled well enough.
   */
  lemma {:induction false} SplitInnerIsCut(t: Tree, s: nat, c: Tree, sp: Split, spare: Node)
    requires t.Inner? && |t.kids| == |t.keys| + 1 && |t.keys| == INNER_SLOT_MAX && s < |t.kids|
    ensures IsCut(t, s, c, sp, spare)
    ensures var k := CutPoint(|t.keys|, s);
      MIN_INNER_SLOTS <= k <= INNER_SLOT_MAX && MIN_INNER_SLOTS <= |t.keys| + 1 - (k + 1) <= INNER_SLOT_MAX
  {
    CutBounds(|t.keys|, s);
    var mid := SplitPoint(|t.keys|, s);
    if s == mid + 1 && mid < |t.keys| - (mid + 1) { CutCaseKey(t, s, c, sp, spare); }
    else if s >= mid + 1 { CutCaseRight(t, s, c, sp, spare); }
    else { CutCaseLeft(t, s, c, sp, spare); }
  }

  lemma {:induction false} CutCaseKey(t: Tree, s: nat, c: Tree, sp: Split, spare: Node)
    requires t.Inner? && |t.kids| == |t.keys| + 1 && |t.keys| == INNER_SLOT_MAX && s < |t.kids|
    requires var mid := SplitPoint(|t.keys|, s); s == mid + 1 && mid < |t.keys| - (mid + 1)
    ensures IsCut(t, s, c, sp, spare)
  {
    hide SplitPoint;
    CutBounds(|t.keys|, s);
    CutAtKids(t.keys, t.kids[s := c], t.kids, s, c, sp, SplitPoint(|t.keys|, s));
  }

  lemma {:induction false} CutCaseRight(t: Tree, s: nat, c: Tree, sp: Split, spare: Node)
    requires t.Inner? && |t.kids| == |t.keys| + 1 && |t.keys| == INNER_SLOT_MAX && s < |t.kids|
    requires var mid := SplitPoint(|t.keys|, s); s >= mid + 1 && !(s == mid + 1 && mid < |t.keys| - (mid + 1))
    ensures IsCut(t, s, c, sp, spare)
  {
    hide SplitPoint;
    CutBounds(|t.keys|, s);
    CutInRight(t.keys, t.kids[s := c], t.kids, s, c, sp, SplitPoint(|t.keys|, s));
  }

  lemma {:induction false} CutCaseLeft(t: Tree, s: nat, c: Tree, sp: Split, spare: Node)
    requires t.Inner? && |t.kids| == |t.keys| + 1 && |t.keys| == INNER_SLOT_MAX && s < |t.kids|
    requires s < SplitPoint(|t.keys|, s) + 1
    ensures IsCut(t, s, c, sp, spare)
  {
    hide SplitPoint;
    CutBounds(|t.keys|, s);
    CutInLeft(t.keys, t.kids[s := c], t.kids, s, c, sp, SplitPoint(|t.keys|, s));
  }

  /** Whatever the parity of the node size, both halves get at least half of the slots. */
  lemma CutBounds(n: nat, s: nat)
    requires 8 <= n && s <= n
    ensures SplitPoint(n, s) < n
    ensures n / 2 <= CutPoint(n, s) <= n && n / 2 <= n + 1 - (CutPoint(n, s) + 1) <= n
  {
  }

  lemma CutAtKids(keys: seq<Key>, kids: seq<Tree>, before: seq<Tree>, s: nat, c: Tree, sp: Split, mid: nat)
    requires |kids| == |keys| + 1 && s < |before| && kids == before[s := c] && s == mid + 1 && s <= |keys|
    ensures var keys', kids' := keys[..s] + [sp.key] + keys[s..], before[..s] + [c, sp.sibling] + before[s + 1..];
      && keys'[..s] == keys[..mid] + [keys[mid]] && keys'[s] == sp.key && keys'[s + 1..] == keys[mid + 1..]
      && kids'[..s + 1] == kids[..mid + 1] + [kids[mid + 1..][0]]
      && kids'[s + 1..] == [sp.sibling] + kids[mid + 1..][1..]
  {
  }

  lemma CutInRight(keys: seq<Key>, kids: seq<Tree>, before: seq<Tree>, s: nat, c: Tree, sp: Split, mid: nat)
    requires |kids| == |keys| + 1 && s < |before| && kids == before[s := c] && mid + 1 <= s <= |keys|
    ensures var keys', kids' := keys[..s] + [sp.key] + keys[s..], before[..s] + [c, sp.sibling] + before[s + 1..];
      var right, i := keys[mid + 1..], s - (mid + 1);
      && keys'[..mid] == keys[..mid] && keys'[mid] == keys[mid]
      && keys'[mid + 1..] == right[..i] + [sp.key] + right[i..]
      && kids'[..mid + 1] == kids[..mid + 1]
      && kids'[mid + 1..] == kids[mid + 1..][..i] + [c, sp.sibling] + kids[mid + 1..][i + 1..]
  {
  }

  lemma CutInLeft(keys: seq<Key>, kids: seq<Tree>, before: seq<Tree>, s: nat, c: Tree, sp: Split, mid: nat)
    requires |kids| == |keys| + 1 && s < |before| && kids == before[s := c] && s <= mid < |keys|
    ensures var keys', kids' := keys[..s] + [sp.key] + keys[s..], before[..s] + [c, sp.sibling] + before[s + 1..];
      var left := keys[..mid];
      && keys'[..mid + 1] == left[..s] + [sp.key] + left[s..] && keys'[mid + 1] == keys[mid]
      && keys'[mid + 2..] == keys[mid + 1..]
      && kids'[..mid + 2] == kids[..mid + 1][..s] + [c, sp.sibling] + kids[..mid + 1][s + 1..]
      && kids'[mid + 2..] == kids[mid + 1..]
  {
  }

  /** `insert_descend`; the node at level `l` takes `spare[l]` if it is split. */
  function InsertNode(t: Tree, x: Item, spare: seq<Node>): Inserted
    requires |spare| > t.Level()
    requires ShapeOk(t)
    decreases t
  {
    if t.Leaf? then InsertInLeaf(t, x, spare[0])
    else
      var s := FindLower(t.keys, x.key);
      var r := InsertNode(t.kids[s], x, spare);
      if r.split.None? then r.(node := Inner(t.ref, t.level, t.keys, t.kids[s := r.node]))
      else if |t.keys| == INNER_SLOT_MAX then
        var (left, right) := SplitInner(t, s, r.node, r.split.value, spare[t.level]);
        r.(node := left, split := Some(right))
      else r.(node := PutChild(t, s, r.node, r.split.value), split := None)
  }

  /** Levels and child counts, without which the descent is not defined. */
  ghost predicate ShapeOk(t: Tree) {
    t.Inner? ==>
      && t.level > 0 && |t.kids| == |t.keys| + 1
      && forall i | 0 <= i < |t.kids| :: t.kids[i].Level() + 1 == t.level && ShapeOk(t.kids[i])
  }

  lemma {:induction false} ValidShape(t: Tree, few: nat)
    requires Valid(t, few)
    ensures ShapeOk(t)
    decreases t
  {
    if t.Inner? {
      forall i | 0 <= i < |t.kids| ensures t.kids[i].Level() + 1 == t.level && ShapeOk(t.kids[i]) {
        ValidShape(t.kids[i], t.kids[i].MinSlots());
      }
    }
  }

  // What inserting must do

  /** `all` is `s` with `x` put somewhere. */
  ghost predicate IsPut(all: seq<Item>, s: seq<Item>, x: Item) {
    exists p | 0 <= p <= |s| :: all == PutAt(s, p, x)
  }

  /** The subtree shows `x` at the given slot of the given leaf. */
  ghost predicate Shows(t: Tree, place: Node, slot: nat, x: Item) {
    match t
    case Leaf(ref, items) => ref == place && slot < |items| && items[slot] == x
    case Inner(_, _, _, kids) => exists i | 0 <= i < |kids| :: Shows(kids[i], place, slot, x)
  }

  ghost predicate ShowsKey(t: Tree, place: Node, slot: nat, key: Key) {
    exists x: Item | x.key == key :: Shows(t, place, slot, x)
  }

  ghost predicate InsertedOk(t: Tree, few: nat, x: Item, r: Inserted) {
    && r.node.ref == t.ref && r.node.Level() == t.Level()
    && (!r.done ==>
          && r.node == t && r.split.None? && !ALLOW_DUPLICATES && HasKey(Contents(t), x.key)
          && ShowsKey(t, r.place, r.slot, x.key))
    && (r.done ==>
          && (!ALLOW_DUPLICATES ==> !HasKey(Contents(t), x.key))
          && match r.split
             case None =>
               && Valid(r.node, few) && Contents(r.node) != []
               && IsPut(Contents(r.node), Contents(t), x)
               && Shows(r.node, r.place, r.slot, x)
             case Some(sp) =>
               && Valid(r.node, r.node.MinSlots()) && Valid(sp.sibling, sp.sibling.MinSlots())
               && Neighbours(r.node, sp.key, sp.sibling)
               && IsPut(Contents(r.node) + Contents(sp.sibling), Contents(t), x)
               && (Shows(r.node, r.place, r.slot, x) || Shows(sp.sibling, r.place, r.slot, x)))
  }

  // Leaves

  lemma {:induction false} UpperParts(items: seq<Item>, key: Key)
    requires SortedItems(items)
    ensures forall i | 0 <= i < FindUpper(KeysOf(items), key) :: items[i].key <= key
    ensures forall i | FindUpper(KeysOf(items), key) <= i < |items| :: key < items[i].key
  {
    hide FindUpper;
    var p, keys := FindUpper(KeysOf(items), key), KeysOf(items);
    forall i | 0 <= i < p ensures items[i].key <= key { assert items[i].key == keys[i]; }
    forall i | p <= i < |items| ensures key < items[i].key { assert key < keys[p] == items[p].key <= items[i].key; }
  }

  lemma {:induction false} PutItemOk(items: seq<Item>, x: Item)
    requires SortedItems(items)
    ensures SortedItems(PutItem(items, x)) && |PutItem(items, x)| == |items| + 1
    ensures PutItem(items, x)[FindUpper(KeysOf(items), x.key)] == x
    ensures PutItem(items, x)[0].key == (if items == [] || x.key < items[0].key then x.key else items[0].key)
    ensures LastKey(PutItem(items, x)) == (if items == [] || x.key > LastKey(items) then x.key else LastKey(items))
  {
    hide FindUpper;
    UpperParts(items, x.key);
    var p, r := FindUpper(KeysOf(items), x.key), PutItem(items, x);
    forall i, j | 0 <= i < j < |r| ensures r[i].key <= r[j].key {
      assert r[i] == if i < p then items[i] else if i == p then x else items[i - 1];
      assert r[j] == if j < p then items[j] else if j == p then x else items[j - 1];
    }
  }

  lemma PutInFront(a: seq<Item>, b: seq<Item>, p: nat, x: Item)
    requires p <= |a|
    ensures PutAt(a, p, x) + b == PutAt(a + b, p, x)
  {
  }

  lemma PutBehind(a: seq<Item>, b: seq<Item>, p: nat, x: Item)
    requires p <= |b|
    ensures a + PutAt(b, p, x) == PutAt(a + b, |a| + p, x)
  {
  }

  lemma {:induction false} AbsentInLeaf(items: seq<Item>, key: Key)
    requires SortedItems(items)
    ensures var slot := FindLower(KeysOf(items), key);
      HasKey(items, key) <==> slot < |items| && items[slot].key == key
  {
    var slot, keys := FindLower(KeysOf(items), key), KeysOf(items);
    if HasKey(items, key) {
      var i :| 0 <= i < |items| && items[i].key == key;
      assert keys[i] == key;
      assert slot <= i;
      assert key <= keys[slot] == items[slot].key;
    }
  }

  lemma {:induction false} InsertInLeafOk(t: Tree, few: nat, x: Item, spare: Node)
    requires t.Leaf? && Valid(t, few)
    ensures InsertedOk(t, few, x, InsertInLeaf(t, x, spare))
  {
    hide FindLower, FindUpper, HasKey;
    var slot := FindLower(KeysOf(t.items), x.key);
    AbsentInLeaf(t.items, x.key);
    if !ALLOW_DUPLICATES && slot < |t.items| && t.items[slot].key == x.key {
      assert Shows(t, t.ref, slot, t.items[slot]);
    } else if |t.items| == LEAF_SLOT_MAX {
      var mid := |t.items| / 2;
      LeafSplitOk(t, few, x, spare, slot, t.items[..mid], t.items[mid..]);
    } else {
      PutItemOk(t.items, x);
      assert PutItem(t.items, x) == PutAt(t.items, FindUpper(KeysOf(t.items), x.key), x);
    }
  }

  /** Halves that hold all pairs and the new one, in order. */
  lemma {:induction false} LeafHalvesOk(t: Tree, few: nat, x: Item, r: Inserted)
    requires t.Leaf? && r.node.Leaf? && r.split.Some? && r.split.value.sibling.Leaf? && r.done
    requires var a, b := r.node.items, r.split.value.sibling.items;
      && MIN_LEAF_SLOTS <= |a| <= LEAF_SLOT_MAX && MIN_LEAF_SLOTS <= |b| <= LEAF_SLOT_MAX
      && SortedItems(a) && SortedItems(b) && LastKey(a) == r.split.value.key <= b[0].key
      && IsPut(a + b, t.items, x)
    requires Shows(r.node, r.place, r.slot, x) || Shows(r.split.value.sibling, r.place, r.slot, x)
    requires !ALLOW_DUPLICATES ==> !HasKey(t.items, x.key)
    requires r.node.ref == t.ref
    ensures InsertedOk(t, few, x, r)
  {
  }

  lemma {:induction false} LeafSplitOk(t: Tree, few: nat, x: Item, spare: Node, slot: nat, a: seq<Item>, b: seq<Item>)
    requires t.Leaf? && Valid(t, few) && |t.items| == LEAF_SLOT_MAX
    requires a == t.items[..|t.items| / 2] && b == t.items[|t.items| / 2..]
    requires slot == FindLower(KeysOf(t.items), x.key)
    requires !(!ALLOW_DUPLICATES && slot < |t.items| && t.items[slot].key == x.key)
    ensures InsertedOk(t, few, x, InsertInLeaf(t, x, spare))
  {
    hide FindLower, FindUpper, HasKey, InsertedOk, PutItem, KeysOf, SortedItems, Shows, IsPut;
    AbsentInLeaf(t.items, x.key);
    assert t.items == a + b;
    SortedConcat(a, b);
    if slot >= |a| { SplitPutsRight(t, few, x, spare, slot, a, b); } else { SplitPutsLeft(t, few, x, spare, slot, a, b); }
  }

  lemma {:induction false} SplitPutsRight(t: Tree, few: nat, x: Item, spare: Node, slot: nat, a: seq<Item>, b: seq<Item>)
    requires t.Leaf? && |t.items| == LEAF_SLOT_MAX && t.items == a + b && |a| == LEAF_SLOT_MAX / 2
    requires SortedItems(a) && SortedItems(b) && LastKey(a) <= b[0].key
    requires slot == FindLower(KeysOf(t.items), x.key) && slot >= |a|
    requires !ALLOW_DUPLICATES ==> !HasKey(t.items, x.key) && !(slot < |t.items| && t.items[slot].key == x.key)
    ensures InsertedOk(t, few, x, InsertInLeaf(t, x, spare))
  {
    hide FindLower, FindUpper, HasKey, InsertedOk, PutItem, SortedItems;
    var r, p := InsertInLeaf(t, x, spare), FindUpper(KeysOf(b), x.key);
    assert t.items[..|t.items| / 2] == a && t.items[|t.items| / 2..] == b;
    assert KeysOf(t.items)[|a| - 1] < x.key && KeysOf(t.items)[|a| - 1] == t.items[|a| - 1].key;
    PutItemOk(b, x);
    PutBehind(a, b, p, x);
    PutForm(b, x);
    LeafHalvesOk(t, few, x, r);
  }

  lemma {:induction false} SplitPutsLeft(t: Tree, few: nat, x: Item, spare: Node, slot: nat, a: seq<Item>, b: seq<Item>)
    requires t.Leaf? && |t.items| == LEAF_SLOT_MAX && t.items == a + b && |a| == LEAF_SLOT_MAX / 2
    requires SortedItems(a) && SortedItems(b) && LastKey(a) <= b[0].key
    requires slot == FindLower(KeysOf(t.items), x.key) && slot < |a|
    requires !ALLOW_DUPLICATES ==> !HasKey(t.items, x.key) && !(slot < |t.items| && t.items[slot].key == x.key)
    ensures InsertedOk(t, few, x, InsertInLeaf(t, x, spare))
  {
    hide FindLower, FindUpper, HasKey, InsertedOk, PutItem, SortedItems;
    var r, p := InsertInLeaf(t, x, spare), FindUpper(KeysOf(a), x.key);
    assert t.items[..|t.items| / 2] == a && t.items[|t.items| / 2..] == b;
    assert x.key <= KeysOf(t.items)[slot] == t.items[slot].key == a[slot].key;
    SlotBelowLast(a, slot);
    PutItemOk(a, x);
    PutInFront(a, b, p, x);
    PutForm(a, x);
    LeafHalvesOk(t, few, x, r);
  }

  lemma PutForm(items: seq<Item>, x: Item)
    ensures PutItem(items, x) == PutAt(items, FindUpper(KeysOf(items), x.key), x)
  {
  }

  lemma SlotBelowLast(a: seq<Item>, i: nat)
    requires SortedItems(a) && i < |a|
    ensures a[i].key <= LastKey(a)
  {
  }

  // Inner nodes

  /** The outer keys after a pair has been put among others. */
  lemma {:induction false} PutEnds(all: seq<Item>, s: seq<Item>, x: Item)
    requires IsPut(all, s, x) && SortedItems(all) && s != []
    ensures all != []
    ensures LastKey(all) == if x.key > LastKey(s) then x.key else LastKey(s)
    ensures all[0].key == if x.key < s[0].key then x.key else s[0].key
  {
    var p :| 0 <= p <= |s| && all == PutAt(s, p, x);
    assert p > 0 ==> all[0] == s[0] && all[0].key <= all[p].key;
    assert p < |s| ==> all[|all| - 1] == s[|s| - 1] && all[p].key <= all[|all| - 1].key;
    assert p == 0 && s != [] ==> all[1] == s[0] && all[0].key <= all[1].key;
    assert p == |s| ==> all[|all| - 2] == s[|s| - 1] && all[|all| - 2].key <= all[|all| - 1].key;
  }

  lemma {:induction false} PutInMiddle(a: seq<Item>, all: seq<Item>, s: seq<Item>, b: seq<Item>, x: Item)
    requires IsPut(all, s, x)
    ensures IsPut(a + all + b, a + s + b, x)
  {
    var p :| 0 <= p <= |s| && all == PutAt(s, p, x);
    PutInFront(s, b, p, x);
    PutBehind(a, s + b, p, x);
    assert a + all + b == a + (PutAt(s, p, x) + b);
    assert a + s + b == a + (s + b);
    assert a + all + b == PutAt(a + s + b, |a| + p, x);
  }

  /** What comes back for child `s`: one node or two that take its place. */
  ghost predicate Fits(t: Tree, s: nat, first: Tree, last: Tree)
    requires t.Inner? && s < |t.kids|
  {
    && Contents(first) != [] && Contents(last) != []
    && (0 < s <= |t.keys| ==> t.keys[s - 1] <= LowKey(first))
    && (s < |t.keys| ==> HighKey(last) == t.keys[s])
  }

  function LastOf(r: Inserted): Tree {
    if r.split.Some? then r.split.value.sibling else r.node
  }

  lemma {:induction false} InsertEnds(t: Tree, few: nat, x: Item, r: Inserted)
    requires Valid(t, few) && few > 0 && InsertedOk(t, few, x, r) && r.done
    ensures Contents(t) != [] && Contents(r.node) != [] && Contents(LastOf(r)) != []
    ensures LowKey(r.node) == if x.key < LowKey(t) then x.key else LowKey(t)
    ensures HighKey(LastOf(r)) == if x.key > HighKey(t) then x.key else HighKey(t)
  {
    hide Valid, HasKey, Shows, Contents, IsPut;
    ContentsSorted(t, few);
    if r.split.Some? {
      ContentsSorted(r.node, r.node.MinSlots());
      ContentsSorted(LastOf(r), LastOf(r).MinSlots());
      SortedConcat(Contents(r.node), Contents(LastOf(r)));
      PutEnds(Contents(r.node) + Contents(LastOf(r)), Contents(t), x);
    } else {
      ContentsSorted(r.node, few);
      PutEnds(Contents(r.node), Contents(t), x);
    }
  }

  /** The pair went into child `s` and stays between the separators of that child. */
  lemma {:induction false} InsertFits(t: Tree, few: nat, x: Item, s: nat, r: Inserted)
    requires t.Inner? && Valid(t, few) && s == FindLower(t.keys, x.key) && s < |t.kids|
    requires InsertedOk(t.kids[s], t.kids[s].MinSlots(), x, r) && r.done
    ensures Fits(t, s, r.node, LastOf(r))
  {
    hide KidsValid, FindLower, Valid, InsertedOk, LowKey, HighKey, Contents;
    KidAt(t, few, s);
    Bounds(t, few);
    InsertEnds(t.kids[s], t.kids[s].MinSlots(), x, r);
    if 0 < s <= |t.keys| { assert t.keys[s - 1] <= LowKey(t.kids[s - 1 + 1]); }
  }

  lemma {:induction false} PutKidSeparated(t: Tree, few: nat, s: nat, c: Tree)
    requires t.Inner? && Valid(t, few) && s < |t.kids| && Fits(t, s, c, c)
    ensures Separated(t.keys, t.kids[s := c])
    ensures Flat(t.kids[s := c]) == Flat(t.kids[..s]) + Contents(c) + Flat(t.kids[s + 1..])
  {
    hide Contents, Flat, KidsValid;
    var kids := t.kids[s := c];
    FlatAt(kids, s);
    assert kids[..s] == t.kids[..s] && kids[s + 1..] == t.kids[s + 1..];
    forall k | 0 <= k < |t.keys| ensures t.keys[k] == HighKey(kids[k]) && t.keys[k] <= LowKey(kids[k + 1]) {
      hide LowKey, HighKey;
      assert t.keys[k] == HighKey(t.kids[k]) && t.keys[k] <= LowKey(t.kids[k + 1]);
    }
  }

  /** One separator of the run with both halves in it. */
  lemma {:induction false} PutKidsSeparator(keys: seq<Key>, kids: seq<Tree>, s: nat, c: Tree, sp: Split, k: nat)
    requires Separated(keys, kids) && s < |kids| && k <= |keys|
    requires Contents(c) != [] && Neighbours(c, sp.key, sp.sibling)
    requires 0 < s <= |keys| ==> keys[s - 1] <= LowKey(c)
    requires s < |keys| ==> HighKey(sp.sibling) == keys[s]
    ensures var keys', kids' := keys[..s] + [sp.key] + keys[s..], kids[..s] + [c, sp.sibling] + kids[s + 1..];
      && Contents(kids'[k]) != [] && Contents(kids'[k + 1]) != []
      && keys'[k] == HighKey(kids'[k]) && keys'[k] <= LowKey(kids'[k + 1])
  {
    hide Contents, LowKey, HighKey;
    var keys', kids' := keys[..s] + [sp.key] + keys[s..], kids[..s] + [c, sp.sibling] + kids[s + 1..];
    if k < s {
      assert keys'[k] == keys[k] && kids'[k] == kids[k];
      assert kids'[k + 1] == if k + 1 == s then c else kids[k + 1];
    } else if k == s {
      assert keys'[k] == sp.key && kids'[k] == c && kids'[k + 1] == sp.sibling;
    } else {
      assert keys'[k] == keys[k - 1] && kids'[k] == (if k == s + 1 then sp.sibling else kids[k - 1]);
      assert kids'[k + 1] == kids[k - 1 + 1];
    }
  }

  lemma {:induction false} PutKidsSeparated(t: Tree, few: nat, s: nat, c: Tree, sp: Split)
    requires t.Inner? && Valid(t, few) && s <= |t.keys| && s < |t.kids|
    requires Fits(t, s, c, sp.sibling) && Neighbours(c, sp.key, sp.sibling)
    ensures Separated(PutChild(t, s, c, sp).keys, PutChild(t, s, c, sp).kids)
  {
    hide Contents, Flat, KidsValid, LowKey, HighKey, Neighbours;
    var keys, kids := PutChild(t, s, c, sp).keys, PutChild(t, s, c, sp).kids;
    assert |kids| == |keys| + 1 && |keys| == |t.keys| + 1;
    forall k | 0 <= k < |kids| ensures Contents(kids[k]) != [] {
      PutKidsSeparator(t.keys, t.kids, s, c, sp, if k == 0 then 0 else k - 1);
    }
    forall k | 0 <= k < |keys| ensures keys[k] == HighKey(kids[k]) && keys[k] <= LowKey(kids[k + 1]) {
      PutKidsSeparator(t.keys, t.kids, s, c, sp, k);
    }
  }

  lemma {:induction false} PutKidsFlat(t: Tree, s: nat, c: Tree, sp: Split)
    requires t.Inner? && s <= |t.keys| && s < |t.kids|
    ensures Flat(PutChild(t, s, c, sp).kids) ==
            Flat(t.kids[..s]) + (Contents(c) + Contents(sp.sibling)) + Flat(t.kids[s + 1..])
  {
    hide Contents, Flat;
    var kids := PutChild(t, s, c, sp).kids;
    FlatAtTwo(kids, s);
    assert kids[..s] == t.kids[..s] && kids[s + 2..] == t.kids[s + 1..];
  }

  lemma {:induction false} PutKidValid(level: nat, kids: seq<Tree>, s: nat, c: Tree)
    requires KidsValid(level, kids, -1) && s < |kids| && c.Level() + 1 == level && Valid(c, c.MinSlots())
    ensures KidsValid(level, kids[s := c], -1)
  {
    hide Valid;
    var kids' := kids[s := c];
    forall k | 0 <= k < |kids'| ensures kids'[k].Level() + 1 == level && Valid(kids'[k], kids'[k].MinSlots()) {
      if k != s { assert kids'[k] == kids[k]; }
    }
  }

  lemma {:induction false} PutKidsValid(level: nat, kids: seq<Tree>, s: nat, c: Tree, y: Tree)
    requires KidsValid(level, kids, -1) && s < |kids|
    requires c.Level() + 1 == level && Valid(c, c.MinSlots()) && y.Level() + 1 == level && Valid(y, y.MinSlots())
    ensures KidsValid(level, kids[..s] + [c, y] + kids[s + 1..], -1)
  {
    hide Valid;
    var kids' := kids[..s] + [c, y] + kids[s + 1..];
    forall k | 0 <= k < |kids'| ensures kids'[k].Level() + 1 == level && Valid(kids'[k], kids'[k].MinSlots()) {
      if k < s { assert kids'[k] == kids[k]; } else if k > s + 1 { assert kids'[k] == kids[k - 1]; }
    }
  }

  /** A separated run that is too long for one node, as two. */
  lemma {:induction false} HalvesOk(t: Tree, spare: Node, keys: seq<Key>, kids: seq<Tree>, k: nat)
    requires t.Inner? && t.level > 0 && Separated(keys, kids) && KidsValid(t.level, kids, -1)
    requires MIN_INNER_SLOTS <= k <= INNER_SLOT_MAX && MIN_INNER_SLOTS <= |keys| - (k + 1) <= INNER_SLOT_MAX
    ensures var x, y := Inner(t.ref, t.level, keys[..k], kids[..k + 1]), Inner(spare, t.level, keys[k + 1..], kids[k + 1..]);
      && Valid(x, x.MinSlots()) && Valid(y, y.MinSlots()) && Neighbours(x, keys[k], y)
      && Contents(x) + Contents(y) == Flat(kids)
  {
    hide Separated, KidsValid, Flat;
    KidsCount(keys, kids);
    CutSeparated(keys, kids, k);
    KidsCut(t.level, kids, k + 1);
  }

  lemma KidsCount(keys: seq<Key>, kids: seq<Tree>)
    requires Separated(keys, kids)
    ensures |kids| == |keys| + 1
  {
  }

  lemma {:induction false} InsertNodeOk(t: Tree, few: nat, x: Item, spare: seq<Node>)
    requires Valid(t, few) && |spare| > t.Level() && (t.Inner? ==> few > 0)
    ensures ShapeOk(t)
    ensures InsertedOk(t, few, x, InsertNode(t, x, spare))
    decreases t
  {
    hide Valid, InsertedOk, Contents, FindLower, Separated, KidsValid;
    ValidShape(t, few);
    if t.Leaf? {
      InsertInLeafOk(t, few, x, spare[0]);
    } else {
      Bounds(t, few);
      var s := FindLower(t.keys, x.key);
      KidAt(t, few, s);
      InsertNodeOk(t.kids[s], t.kids[s].MinSlots(), x, spare);
      var r := InsertNode(t.kids[s], x, spare);
      if !r.done { NotInserted(t, few, x, s, r); }
      else if r.split.None? { InsertedBelow(t, few, x, s, r); }
      else if |t.keys| == INNER_SLOT_MAX { InsertedSplit(t, few, x, s, r, spare[t.level]); }
      else { InsertedBeside(t, few, x, s, r); }
    }
  }

  lemma {:induction false} NotInserted(t: Tree, few: nat, x: Item, s: nat, r: Inserted)
    requires t.Inner? && Valid(t, few) && s == FindLower(t.keys, x.key) && s < |t.kids|
    requires InsertedOk(t.kids[s], t.kids[s].MinSlots(), x, r) && !r.done
    ensures InsertedOk(t, few, x, r.(node := Inner(t.ref, t.level, t.keys, t.kids[s := r.node])))
  {
    DescendContents(t, few, x.key, s);
    assert t.kids[s := r.node] == t.kids;
    var y: Item :| y.key == x.key && Shows(t.kids[s], r.place, r.slot, y);
    assert Shows(t, r.place, r.slot, y);
  }

  lemma {:induction false} InsertedBelow(t: Tree, few: nat, x: Item, s: nat, r: Inserted)
    requires t.Inner? && Valid(t, few) && s == FindLower(t.keys, x.key) && s < |t.kids|
    requires InsertedOk(t.kids[s], t.kids[s].MinSlots(), x, r) && r.done && r.split.None?
    ensures InsertedOk(t, few, x, r.(node := Inner(t.ref, t.level, t.keys, t.kids[s := r.node])))
  {
    hide FindLower, HasKey, RemoveFirst, IsPut, Separated, KidsValid, Shows, Flat, LowKey, HighKey, Fits;
    DescendContents(t, few, x.key, s);
    Bounds(t, few);
    KidAt(t, few, s);
    InsertFits(t, few, x, s, r);
    PutKidSeparated(t, few, s, r.node);
    SameMin(r.node, r.node.MinSlots(), t.kids[s], t.kids[s].MinSlots());
    PutKidValid(t.level, t.kids, s, r.node);
    PutMiddleOf(t, s, Contents(r.node), x);
    InnerEnds(t.keys, t.kids[s := r.node]);
    KidShows(t.ref, t.level, t.keys, t.kids[s := r.node], s, r, x);
  }

  lemma KidShows(ref: Node, level: nat, keys: seq<Key>, kids: seq<Tree>, s: nat, r: Inserted, x: Item)
    requires s < |kids| && kids[s] == r.node && Shows(r.node, r.place, r.slot, x)
    ensures Shows(Inner(ref, level, keys, kids), r.place, r.slot, x)
  {
  }

  /** Nodes of one level need the same number of slots. */
  lemma {:induction false} SameMin(x: Tree, few: nat, y: Tree, least: nat)
    requires Valid(x, few) && Valid(y, least) && x.Level() == y.Level()
    ensures x.MinSlots() == y.MinSlots() && (x.Leaf? <==> y.Leaf?)
  {
    hide Valid;
    Bounds(x, few);
    Bounds(y, least);
  }

  /** What the parent of a split child knows about the run with both halves in it. */
  lemma {:induction false} InsertedPair(t: Tree, few: nat, x: Item, s: nat, r: Inserted)
    requires t.Inner? && Valid(t, few) && s == FindLower(t.keys, x.key) && s < |t.kids|
    requires InsertedOk(t.kids[s], t.kids[s].MinSlots(), x, r) && r.done && r.split.Some?
    ensures !ALLOW_DUPLICATES ==> !HasKey(Contents(t), x.key)
    ensures var u := PutChild(t, s, r.node, r.split.value);
      && |u.keys| == |t.keys| + 1
      && Separated(u.keys, u.kids) && KidsValid(t.level, u.kids, -1)
      && IsPut(Flat(u.kids), Contents(t), x)
  {
    hide FindLower, HasKey, RemoveFirst, Shows, IsPut, Separated, KidsValid, LowKey, HighKey, Contents, Flat;
    Bounds(t, few);
    KidAt(t, few, s);
    InsertFits(t, few, x, s, r);
    DescendContents(t, few, x.key, s);
    PutKidsSeparated(t, few, s, r.node, r.split.value);
    PutKidsValid(t.level, t.kids, s, r.node, r.split.value.sibling);
    PutKidsFlat(t, s, r.node, r.split.value);
    PutMiddleOf(t, s, Contents(r.node) + Contents(r.split.value.sibling), x);
  }

  lemma {:induction false} PutMiddleOf(t: Tree, s: nat, all: seq<Item>, x: Item)
    requires t.Inner? && s < |t.kids| && IsPut(all, Contents(t.kids[s]), x)
    ensures IsPut(Flat(t.kids[..s]) + all + Flat(t.kids[s + 1..]), Contents(t), x)
  {
    hide IsPut, Flat;
    FlatAt(t.kids, s);
    PutInMiddle(Flat(t.kids[..s]), all, Contents(t.kids[s]), Flat(t.kids[s + 1..]), x);
  }

  lemma {:induction false} PairShows(t: Tree, s: nat, r: Inserted, x: Item)
    requires t.Inner? && s <= |t.keys| && s < |t.kids| && r.split.Some?
    requires Shows(r.node, r.place, r.slot, x) || Shows(r.split.value.sibling, r.place, r.slot, x)
    ensures Shows(PutChild(t, s, r.node, r.split.value), r.place, r.slot, x)
  {
    var u := PutChild(t, s, r.node, r.split.value);
    assert u.kids[s] == r.node && u.kids[s + 1] == r.split.value.sibling;
  }

  lemma {:induction false} HalfShows(u: Tree, k: nat, x: Tree, y: Tree, place: Node, slot: nat, item: Item)
    requires u.Inner? && k < |u.kids| && Shows(u, place, slot, item)
    requires x.Inner? && y.Inner? && x.kids == u.kids[..k + 1] && y.kids == u.kids[k + 1..]
    ensures Shows(x, place, slot, item) || Shows(y, place, slot, item)
  {
    var i :| 0 <= i < |u.kids| && Shows(u.kids[i], place, slot, item);
    if i < k + 1 { assert x.kids[i] == u.kids[i]; } else { assert y.kids[i - (k + 1)] == u.kids[i]; }
  }

  lemma {:induction false} InsertedBeside(t: Tree, few: nat, x: Item, s: nat, r: Inserted)
    requires t.Inner? && Valid(t, few) && s == FindLower(t.keys, x.key) && s < |t.kids|
    requires InsertedOk(t.kids[s], t.kids[s].MinSlots(), x, r) && r.done && r.split.Some?
    requires |t.keys| < INNER_SLOT_MAX
    ensures InsertedOk(t, few, x, r.(node := PutChild(t, s, r.node, r.split.value), split := None))
  {
    hide FindLower, HasKey, IsPut, Separated, KidsValid, Shows, Flat;
    InsertedPair(t, few, x, s, r);
    Bounds(t, few);
    PairShows(t, s, r, x);
    var u := PutChild(t, s, r.node, r.split.value);
    KidsCount(u.keys, u.kids);
    InnerEnds(u.keys, u.kids);
  }

  lemma {:induction false} InsertedSplit(t: Tree, few: nat, x: Item, s: nat, r: Inserted, spare: Node)
    requires t.Inner? && Valid(t, few) && s == FindLower(t.keys, x.key) && s < |t.kids|
    requires InsertedOk(t.kids[s], t.kids[s].MinSlots(), x, r) && r.done && r.split.Some?
    requires |t.keys| == INNER_SLOT_MAX
    ensures |t.kids| == |t.keys| + 1
    ensures var (left, right) := SplitInner(t, s, r.node, r.split.value, spare);
      InsertedOk(t, few, x, r.(node := left, split := Some(right)))
  {
    hide FindLower, HasKey, IsPut, Separated, KidsValid, Shows, Flat, SplitInner, CutPoint, Valid;
    InsertedPair(t, few, x, s, r);
    Bounds(t, few);
    PairShows(t, s, r, x);
    var u, k := PutChild(t, s, r.node, r.split.value), CutPoint(|t.keys|, s);
    SplitInnerIsCut(t, s, r.node, r.split.value, spare);
    KidsCount(u.keys, u.kids);
    LevelPositive(t, few);
    HalvesOk(t, spare, u.keys, u.kids, k);
    var (left, right) := SplitInner(t, s, r.node, r.split.value, spare);
    HalfShows(u, k, left, right.sibling, r.place, r.slot, x);
  }

  lemma LevelPositive(t: Tree, few: nat)
    requires t.Inner? && Valid(t, few)
    ensures t.level > 0
  {
  }

  // `insert_start` on the whole tree

  /** What the descent starts from: an empty leaf when there is no root yet. */
  function StartOf(root: Option<Tree>, first: Node): Tree {
    if root.None? then Leaf(first, []) else root.value
  }

  /** A root that was split gets a parent. */
  function GrowRoot(r: Inserted, top: Node): Tree {
    if r.split.None? then r.node
    else Inner(top, r.node.Level() + 1, [r.split.value.key], [r.node, r.split.value.sibling])
  }

  ghost function InsertStart(root: Option<Tree>, x: Item, first: Node, spare: seq<Node>, top: Node): (r: (Tree, bool))
    requires ValidRoot(root) && |spare| > StartOf(root, first).Level()
  {
    StartShape(root, first);
    var r := InsertNode(StartOf(root, first), x, spare);
    (GrowRoot(r, top), r.done)
  }

  lemma {:induction false} StartShape(root: Option<Tree>, first: Node)
    requires ValidRoot(root)
    ensures ShapeOk(StartOf(root, first)) && Valid(StartOf(root, first), if root.None? then 0 else 1)
    ensures Contents(StartOf(root, first)) == Pairs(root)
  {
    if root.Some? { ValidShape(root.value, 1); }
  }

  /**
   * `insert_start` adds exactly the given pair, or, when duplicates are not
   * allowed and the key is present, changes nothing; it keeps the invariant.
   */
  lemma {:induction false} InsertStartOk(root: Option<Tree>, x: Item, first: Node, spare: seq<Node>, top: Node)
    requires ValidRoot(root) && |spare| > StartOf(root, first).Level()
    ensures var (n, done) := InsertStart(root, x, first, spare, top);
      && Valid(n, 1) && Contents(n) != []
      && (done <==> ALLOW_DUPLICATES || !HasKey(Pairs(root), x.key))
      && (done ==> IsPut(Contents(n), Pairs(root), x))
      && (!done ==> root == Some(n) && Contents(n) == Pairs(root))
  {
    hide Valid, HasKey, Contents, IsPut, InsertNode, InsertedOk, ShapeOk, GrowRoot;
    StartShape(root, first);
    var t, few := StartOf(root, first), if root.None? then 0 else 1;
    Bounds(t, few);
    InsertNodeOk(t, few, x, spare);
    GrowRootOk(t, few, x, InsertNode(t, x, spare), top);
    HasSome(Pairs(root), x.key);
  }

  /** What the descent comes to, seen from the root. */
  lemma {:induction false} GrowRootOk(t: Tree, few: nat, x: Item, r: Inserted, top: Node)
    requires Valid(t, few) && (few > 0 || t.Leaf?) && InsertedOk(t, few, x, r)
    ensures r.done <==> ALLOW_DUPLICATES || !HasKey(Contents(t), x.key)
    ensures var n := GrowRoot(r, top);
      && (r.done ==> Valid(n, 1) && Contents(n) != [] && IsPut(Contents(n), Contents(t), x))
      && (!r.done ==> n == t)
  {
    hide Valid, HasKey, Shows, Contents, IsPut, LowKey, HighKey;
    if r.done {
      Bounds(t, few);
      if r.split.None? {
        Bounds(r.node, few);
        NotEmptied(r.node, few);
      } else {
        RootOk(r.node, r.split.value, top);
      }
    }
  }

  lemma HasSome(s: seq<Item>, key: Key)
    ensures HasKey(s, key) ==> s != []
  {
  }

  lemma {:induction false} NotEmptied(t: Tree, few: nat)
    requires Valid(t, few) && Contents(t) != [] && (few > 0 || t.Leaf?)
    ensures Valid(t, 1)
  {
    if few > 0 { ValidWeaken(t, few, 1); }
  }

  /** The new root above two halves. */
  lemma {:induction false} RootOk(x: Tree, sp: Split, top: Node)
    requires Valid(x, x.MinSlots()) && Valid(sp.sibling, sp.sibling.MinSlots()) && Neighbours(x, sp.key, sp.sibling)
    ensures var n := Inner(top, x.Level() + 1, [sp.key], [x, sp.sibling]);
      Valid(n, 1) && Contents(n) == Contents(x) + Contents(sp.sibling)
  {
    hide Contents, LowKey, HighKey;
    var keys, kids := [sp.key], [x, sp.sibling];
    FlatTwo(x, sp.sibling);
    ContentsInner(Inner(top, x.Level() + 1, keys, kids));
    assert Separated(keys, kids) by {
      forall i | 0 <= i < |keys| ensures keys[i] == HighKey(kids[i]) && keys[i] <= LowKey(kids[i + 1]) {
        assert i == 0;
      }
    }
    assert KidsValid(x.Level() + 1, kids, -1) by { hide Valid; }
  }

  lemma ContentsInner(t: Tree)
    ensures t.Inner? ==> Contents(t) == Flat(t.kids)
  {
  }
}
