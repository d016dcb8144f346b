/** Which memory nodes a subtree uses, and in which order its leaves follow each other. */
module BTreeShape {
  import opened BTreeNode
  import opened BTreeItems
  import opened BTreeTree
  import opened BTreeBalance
  import opened BTreeErase
  import opened Options

  /** The leaves from left to right. */
  ghost function LeafRefs(t: Tree): seq<Node>
    decreases t, 0
  {
    if t.Leaf? then [t.ref] else LeafRefsAll(t.kids)
  }

  ghost function LeafRefsAll(kids: seq<Tree>): seq<Node>
    decreases kids, 1
  {
    if kids == [] then [] else LeafRefs(kids[0]) + LeafRefsAll(kids[1..])
  }

  ghost function InnerCount(t: Tree): nat
    decreases t, 0
  {
    if t.Leaf? then 0 else 1 + InnerCountAll(t.kids)
  }

  ghost function InnerCountAll(kids: seq<Tree>): nat
    decreases kids, 1
  {
    if kids == [] then 0 else InnerCount(kids[0]) + InnerCountAll(kids[1..])
  }

  lemma {:induction false} ShapeConcat(a: seq<Tree>, b: seq<Tree>)
    ensures LeafRefsAll(a + b) == LeafRefsAll(a) + LeafRefsAll(b)
    ensures InnerCountAll(a + b) == InnerCountAll(a) + InnerCountAll(b)
  {
    if a == [] {
      assert a + b == b;
    } else {
      assert (a + b)[1..] == a[1..] + b;
      ShapeConcat(a[1..], b);
    }
  }

  lemma {:induction false} ShapeOne(t: Tree)
    ensures LeafRefsAll([t]) == LeafRefs(t) && InnerCountAll([t]) == InnerCount(t)
    ensures FootAll([t]) == Foot(t) && (AllApart([t]) <==> Apart(t))
  {
    assert [t][1..] == [];
  }

  lemma {:induction false} ShapeTwo(x: Tree, y: Tree)
    ensures LeafRefsAll([x, y]) == LeafRefs(x) + LeafRefs(y)
    ensures InnerCountAll([x, y]) == InnerCount(x) + InnerCount(y)
    ensures FootAll([x, y]) == Foot(x) + Foot(y)
    ensures AllApart([x, y]) <==> Apart(x) && Apart(y) && Foot(x) !! Foot(y)
  {
    assert [x, y] == [x] + [y];
    ShapeConcat([x], [y]);
    FootConcat([x], [y]);
    ShapeOne(x);
    ShapeOne(y);
  }

  lemma LeafRefsTop(t: Tree)
    ensures t.Inner? ==> LeafRefs(t) == LeafRefsAll(t.kids) && InnerCount(t) == 1 + InnerCountAll(t.kids)
  {
  }

  lemma {:induction false} LeavesInside(t: Tree)
    ensures forall n | n in LeafRefs(t) :: n in Foot(t)
    decreases t, 0
  {
    if t.Inner? { AllLeavesInside(t.kids); }
  }

  lemma {:induction false} AllLeavesInside(kids: seq<Tree>)
    ensures forall n | n in LeafRefsAll(kids) :: n in FootAll(kids)
    decreases kids, 1
  {
    if kids != [] {
      LeavesInside(kids[0]);
      AllLeavesInside(kids[1..]);
    }
  }

  /** The children around a middle part. */
  lemma {:induction false} ShapeAround(kids: seq<Tree>, i: nat, j: nat)
    requires i <= j <= |kids|
    ensures LeafRefsAll(kids) == LeafRefsAll(kids[..i]) + LeafRefsAll(kids[i..j]) + LeafRefsAll(kids[j..])
    ensures InnerCountAll(kids) == InnerCountAll(kids[..i]) + InnerCountAll(kids[i..j]) + InnerCountAll(kids[j..])
    ensures FootAll(kids) == FootAll(kids[..i]) + FootAll(kids[i..j]) + FootAll(kids[j..])
    ensures AllApart(kids) <==>
              && AllApart(kids[..i]) && AllApart(kids[i..j]) && AllApart(kids[j..])
              && FootAll(kids[..i]) !! FootAll(kids[i..j])
              && FootAll(kids[..i]) !! FootAll(kids[j..]) && FootAll(kids[i..j]) !! FootAll(kids[j..])
  {
    assert kids == kids[..i] + kids[i..j] + kids[j..];
    ShapeConcat(kids[..i] + kids[i..j], kids[j..]);
    ShapeConcat(kids[..i], kids[i..j]);
    FootConcat(kids[..i] + kids[i..j], kids[j..]);
    FootConcat(kids[..i], kids[i..j]);
  }

  /** A middle part of the children replaced by other children from the same nodes. */
  lemma {:induction false} ReplaceMiddle(t: Tree, t': Tree, i: nat, j: nat, mid: seq<Tree>)
    requires t.Inner? && t'.Inner? && t.ref == t'.ref && Apart(t)
    requires i <= j <= |t.kids| && t'.kids == t.kids[..i] + mid + t.kids[j..]
    requires AllApart(mid) && FootAll(mid) <= FootAll(t.kids[i..j])
    ensures Apart(t') && Foot(t') <= Foot(t)
    ensures LeafRefs(t) == LeafRefsAll(t.kids[..i]) + LeafRefsAll(t.kids[i..j]) + LeafRefsAll(t.kids[j..])
    ensures LeafRefs(t') == LeafRefsAll(t.kids[..i]) + LeafRefsAll(mid) + LeafRefsAll(t.kids[j..])
    ensures InnerCount(t') - InnerCount(t) == InnerCountAll(mid) - InnerCountAll(t.kids[i..j])
  {
    var k := i + |mid|;
    ShapeAround(t.kids, i, j);
    ShapeAround(t'.kids, i, k);
    assert t'.kids[..i] == t.kids[..i] && t'.kids[i..k] == mid && t'.kids[k..] == t.kids[j..];
  }

  /** The shape of two neighbours, apart from each other. */
  ghost predicate PairApart(x: Tree, y: Tree) {
    Apart(x) && Apart(y) && Foot(x) !! Foot(y)
  }

  lemma {:induction false} MergePairShape(x: Tree, m: Key, y: Tree)
    requires (x.Leaf? <==> y.Leaf?) && PairApart(x, y)
    ensures var z := MergePair(x, m, y);
      && Apart(z) && Foot(z) == Foot(x) + Foot(y) - {y.ref}
      && LeafRefs(z) == (if x.Leaf? then [x.ref] else LeafRefs(x) + LeafRefs(y))
      && InnerCount(z) == InnerCount(x) + InnerCount(y) - if x.Leaf? then 0 else 1
  {
    if x.Inner? {
      ShapeConcat(x.kids, y.kids);
      FootConcat(x.kids, y.kids);
    }
  }

  lemma {:induction false} CutShape(x: Tree, m: Key, y: Tree, k: nat)
    requires (x.Leaf? <==> y.Leaf?) && PairApart(x, y)
    requires x.Inner? ==> |x.kids| == |x.keys| + 1 && |y.kids| == |y.keys| + 1
    requires 0 < k < x.Use() + y.Use()
    ensures var r := Cut(x, m, y, k);
      && PairApart(r.left, r.right)
      && Foot(r.left) + Foot(r.right) == Foot(x) + Foot(y)
      && LeafRefs(r.left) + LeafRefs(r.right) == LeafRefs(x) + LeafRefs(y)
      && InnerCount(r.left) + InnerCount(r.right) == InnerCount(x) + InnerCount(y)
  {
    if x.Inner? {
      var kids := x.kids + y.kids;
      ShapeConcat(x.kids, y.kids);
      FootConcat(x.kids, y.kids);
      assert kids == kids[..k + 1] + kids[k + 1..];
      ShapeConcat(kids[..k + 1], kids[k + 1..]);
      FootConcat(kids[..k + 1], kids[k + 1..]);
    }
  }

  lemma {:induction false} KidsPair(t: Tree, i: nat)
    requires t.Inner? && Apart(t) && i + 1 < |t.kids|
    ensures PairApart(t.kids[i], t.kids[i + 1])
    ensures t.kids[i..i + 2] == [t.kids[i], t.kids[i + 1]]
  {
    ShapeAround(t.kids, i, i + 2);
    ShapeTwo(t.kids[i], t.kids[i + 1]);
    assert t.kids[i..i + 2] == [t.kids[i], t.kids[i + 1]];
  }

  lemma {:induction false} PutPairShape(t: Tree, i: nat, r: Shifted)
    requires t.Inner? && Apart(t) && i < |t.keys| && |t.kids| == |t.keys| + 1
    requires PairApart(r.left, r.right)
    requires var x, y := t.kids[i], t.kids[i + 1];
      && Foot(r.left) + Foot(r.right) == Foot(x) + Foot(y)
      && LeafRefs(r.left) + LeafRefs(r.right) == LeafRefs(x) + LeafRefs(y)
      && InnerCount(r.left) + InnerCount(r.right) == InnerCount(x) + InnerCount(y)
    ensures var n := PutPair(t, i, r);
      Apart(n) && Foot(n) <= Foot(t) && LeafRefs(n) == LeafRefs(t) && InnerCount(n) == InnerCount(t)
  {
    hide Apart, Foot, LeafRefs, InnerCount;
    KidsPair(t, i);
    ShapeTwo(t.kids[i], t.kids[i + 1]);
    ShapeTwo(r.left, r.right);
    ReplaceMiddle(t, PutPair(t, i, r), i, i + 2, [r.left, r.right]);
  }

  lemma {:induction false} MergeAtShape(t: Tree, i: nat)
    requires t.Inner? && Apart(t) && i < |t.keys| && |t.kids| == |t.keys| + 1
    requires t.kids[i].Leaf? <==> t.kids[i + 1].Leaf?
    ensures Apart(MergeAt(t, i)) && Foot(MergeAt(t, i)) <= Foot(t)
    ensures var x, y, a, b := t.kids[i], t.kids[i + 1], LeafRefsAll(t.kids[..i]), LeafRefsAll(t.kids[i + 2..]);
      && LeafRefs(t) == a + (LeafRefs(x) + LeafRefs(y)) + b
      && LeafRefs(MergeAt(t, i)) == (if x.Leaf? then a + [x.ref] + b else LeafRefs(t))
      && InnerCount(MergeAt(t, i)) == InnerCount(t) - if x.Leaf? then 0 else 1
  {
    hide Apart, Foot, LeafRefs, InnerCount;
    var z := MergePair(t.kids[i], t.keys[i], t.kids[i + 1]);
    KidsPair(t, i);
    ShapeTwo(t.kids[i], t.kids[i + 1]);
    MergePairShape(t.kids[i], t.keys[i], t.kids[i + 1]);
    ShapeOne(z);
    ReplaceMiddle(t, MergeAt(t, i), i, i + 2, [z]);
  }

  lemma {:induction false} WithChildShape(t: Tree, s: nat, c: Tree, last: Option<Key>)
    requires t.Inner? && Apart(t) && s < |t.kids|
    requires Apart(c) && Foot(c) <= Foot(t.kids[s])
    ensures var n, a, b := WithChild(t, s, c, last), LeafRefsAll(t.kids[..s]), LeafRefsAll(t.kids[s + 1..]);
      && Apart(n) && Foot(n) <= Foot(t)
      && LeafRefs(t) == a + LeafRefs(t.kids[s]) + b
      && LeafRefs(n) == a + LeafRefs(c) + b
      && InnerCount(n) - InnerCount(t) == InnerCount(c) - InnerCount(t.kids[s])
  {
    hide Apart, Foot, LeafRefs, InnerCount;
    ShapeOne(c);
    ShapeOne(t.kids[s]);
    FootAt(t.kids, s);
    assert t.kids[s..s + 1] == [t.kids[s]];
    assert t.kids[s := c] == t.kids[..s] + [c] + t.kids[s + 1..];
    ReplaceMiddle(t, WithChild(t, s, c, last), s, s + 1, [c]);
  }

  /** A shift moves no leaf; a merge of leaves drops the right one from the order. */
  lemma {:induction false} RebalanceShape(t: Tree, s: nat, act: Action)
    requires Apart(t) && RebalanceDefined(t, s, act)
    ensures Apart(Rebalance(t, s, act)) && Foot(Rebalance(t, s, act)) <= Foot(t)
    ensures act.TakeLeft? || act.TakeRight? ==>
      LeafRefs(Rebalance(t, s, act)) == LeafRefs(t) && InnerCount(Rebalance(t, s, act)) == InnerCount(t)
  {
    hide Apart, Foot, LeafRefs, InnerCount, MergeAt, PutPair, ShiftLeft, ShiftRight, Cut;
    var i := if act.MergeLeft? || act.TakeLeft? then s - 1 else s;
    KidsPair(t, i);
    var x, m, y := t.kids[i], t.keys[i], t.kids[i + 1];
    match act
    case MergeLeft | MergeRight =>
      MergeAtShape(t, i);
    case TakeRight =>
      ShiftLeftCuts(x, m, y);
      CutShape(x, m, y, x.Use() + (y.Use() - x.Use()) / 2);
      PutPairShape(t, i, ShiftLeft(x, m, y));
    case TakeLeft =>
      ShiftRightCuts(x, m, y);
      CutShape(x, m, y, x.Use() - (x.Use() - y.Use()) / 2);
      PutPairShape(t, i, ShiftRight(x, m, y));
  }

  lemma LeafShape(t: Tree)
    requires t.Leaf?
    ensures Apart(t) && Foot(t) == {t.ref} && LeafRefs(t) == [t.ref] && InnerCount(t) == 0
  {
  }

  /** Erasing never shares or invents a memory node. */
  lemma {:induction false} EraseNodeShape(t: Tree, few: nat, left: Cousin, right: Cousin, key: Key)
    requires Descent(t, few, left, right)
    ensures var r := EraseNode(t, few, left, right, key);
      r.Done? ==> Apart(r.node) && Foot(r.node) <= Foot(t)
    decreases t
  {
    hide Apart, Foot, Valid, CousinOk;
    if t.Leaf? {
      var r := EraseNode(t, few, left, right, key);
      if r.Done? {
        LeafShape(t);
        LeafShape(r.node);
      }
    } else {
      var s := FindLower(t.keys, key);
      ChildDescentHere(t, few, left, right, key, s);
      var l, r := LeftOf(t, s, left), RightOf(t, s, right);
      EraseNodeShape(t.kids[s], t.kids[s].MinSlots(), l, r, key);
      var cr := EraseNode(t.kids[s], t.kids[s].MinSlots(), l, r, key);
      if cr.Done? {
        FinishOk(t, few, left, right, key, s, cr.node, cr.last);
        WithChildShape(t, s, cr.node, cr.last);
        if cr.node.IsUnderflow() {
          RebalanceShape(WithChild(t, s, cr.node, cr.last), s, Decide(l, r, t.ref));
        }
      }
    }
  }

  lemma {:induction false} ChildDescentHere(t: Tree, few: nat, left: Cousin, right: Cousin, key: Key, s: nat)
    requires Descent(t, few, left, right) && t.Inner? && s == FindLower(t.keys, key)
    ensures Apart(t)
    ensures left.node.Some? ==> left.node.value.Inner? && 0 < |left.node.value.keys| < |left.node.value.kids|
    ensures right.node.Some? ==> right.node.value.Inner? && right.node.value.kids != []
    ensures s < |t.kids| && Descent(t.kids[s], t.kids[s].MinSlots(), LeftOf(t, s, left), RightOf(t, s, right))
  {
    Bounds(t, few);
    ChildDescent(t, few, left, right, s);
  }

  /** `erase_one` keeps the invariant of the whole tree, memory included. */
  lemma {:induction false} EraseOneShape(root: Option<Tree>, key: Key)
    requires ValidRoot(root)
    ensures ValidRoot(EraseOne(root, key).0)
    ensures root.Some? && EraseOne(root, key).0.Some? ==> Foot(EraseOne(root, key).0.value) <= Foot(root.value)
  {
    EraseOneOk(root, key);
    if root.Some? {
      EraseNodeShape(root.value, 1, Cousin(None, null), Cousin(None, null), key);
      var r := EraseNode(root.value, 1, Cousin(None, null), Cousin(None, null), key);
      if r.Done? && r.node.Inner? && r.node.kids != [] { FootAt(r.node.kids, 0); }
    }
  }
}
