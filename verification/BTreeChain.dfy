/** The doubly linked chain of leaves, and searching within one node. */
module BTreeChain {
  import opened BTreeNode
  import opened BTreeItems

  ghost function NodesIn(chain: seq<Node>): set<Node> {
    set n | n in chain
  }

  lemma ChainExisting(chain: seq<Node>)
    ensures forall n | n in NodesIn(chain) :: allocated(n)
  {
  }

  function NextIn(chain: seq<Node>, i: nat): Node? {
    if i + 1 < |chain| then chain[i + 1] else null
  }

  function PrevIn(chain: seq<Node>, i: nat): Node? {
    if 0 < i <= |chain| then chain[i - 1] else null
  }

  ghost predicate ChainOk(chain: seq<Node>)
    reads NodesIn(chain)`prevleaf, NodesIn(chain)`nextleaf
  {
    && (forall i, j | 0 <= i < j < |chain| :: chain[i] != chain[j])
    && (forall i | 0 <= i < |chain| :: chain[i].nextleaf == NextIn(chain, i))
    && (forall i | 0 <= i < |chain| :: chain[i].prevleaf == PrevIn(chain, i))
  }

  function First(chain: seq<Node>): Node? {
    if chain == [] then null else chain[0]
  }

  function Last(chain: seq<Node>): Node? {
    if chain == [] then null else chain[|chain| - 1]
  }

  /** `find_lower`: an odd binary search that keeps `hi` one below the answer's bound. */
  method FindLowerSlot(n: Node, key: Key, ghost keys: seq<Key>) returns (slot: nat)
    requires n.slotuse == |keys| <= |n.slotkey| && n.slotkey[..|keys|] == keys && SortedKeys(keys)
    ensures slot == FindLower(keys, key)
  {
    if n.slotuse == 0 { return 0; }
    assert forall i | 0 <= i < |keys| :: n.slotkey[i] == keys[i] by { SlotsAt(n.slotkey, keys); }
    var lo, hi := 0, n.slotuse - 1;
    while lo < hi
      invariant 0 <= lo <= |keys| && -1 <= hi < |keys| && lo <= hi + 1
      invariant forall i | 0 <= i < lo :: keys[i] < key
      invariant forall i | hi < i < |keys| :: key <= keys[i]
      decreases hi - lo
    {
      var mid := (lo + hi) / 2;
      if key <= n.slotkey[mid] {
        hi := mid - 1;
      } else {
        lo := mid + 1;
      }
    }
    if hi < 0 || n.slotkey[hi] < key {
      hi := hi + 1;
    }
    LowerUnique(keys, key, hi);
    return hi;
  }

  /** `find_upper`. */
  method FindUpperSlot(n: Node, key: Key, ghost keys: seq<Key>) returns (slot: nat)
    requires n.slotuse == |keys| <= |n.slotkey| && n.slotkey[..|keys|] == keys && SortedKeys(keys)
    ensures slot == FindUpper(keys, key)
  {
    if n.slotuse == 0 { return 0; }
    assert forall i | 0 <= i < |keys| :: n.slotkey[i] == keys[i] by { SlotsAt(n.slotkey, keys); }
    var lo, hi := 0, n.slotuse - 1;
    while lo < hi
      invariant 0 <= lo <= |keys| && -1 <= hi < |keys| && lo <= hi + 1
      invariant forall i | 0 <= i < lo :: keys[i] <= key
      invariant forall i | hi < i < |keys| :: key < keys[i]
      decreases hi - lo
    {
      var mid := (lo + hi) / 2;
      if key < n.slotkey[mid] {
        hi := mid - 1;
      } else {
        lo := mid + 1;
      }
    }
    if hi < 0 || n.slotkey[hi] <= key {
      hi := hi + 1;
    }
    UpperUnique(keys, key, hi);
    return hi;
  }

  lemma SlotsAt<T>(s: seq<T>, keys: seq<T>)
    requires |keys| <= |s| && s[..|keys|] == keys
    ensures forall i | 0 <= i < |keys| :: s[i] == keys[i]
  {
    forall i | 0 <= i < |keys| ensures s[i] == keys[i] { assert s[..|keys|][i] == s[i]; }
  }

  lemma LowerUnique(keys: seq<Key>, key: Key, p: nat)
    requires p <= |keys| && (forall i | 0 <= i < p :: keys[i] < key)
    requires forall i | p <= i < |keys| :: key <= keys[i]
    ensures p == FindLower(keys, key)
  {
    var q := FindLower(keys, key);
    if q < |keys| { var _ := keys[q]; }
    if p < |keys| { var _ := keys[p]; }
  }

  lemma UpperUnique(keys: seq<Key>, key: Key, p: nat)
    requires p <= |keys| && (forall i | 0 <= i < p :: keys[i] <= key)
    requires forall i | p <= i < |keys| :: key < keys[i]
    ensures p == FindUpper(keys, key)
  {
    var q := FindUpper(keys, key);
    if q < |keys| { var _ := keys[q]; }
    if p < |keys| { var _ := keys[p]; }
  }

  /** Where an element of the shorter chain stood in the longer one, and which neighbours it keeps. */
  lemma Spliced(pre: seq<Node>, left: Node, right: Node, post: seq<Node>, i: nat)
    requires i < |pre| + 1 + |post|
    ensures var long, short := pre + [left, right] + post, pre + [left] + post;
      var j := if i <= |pre| then i else i + 1;
      && short[i] == long[j]
      && NextIn(short, i) == (if i == |pre| then First(post) else NextIn(long, j))
      && PrevIn(short, i) == (if i == |pre| + 1 then left else PrevIn(long, j))
      && (i == |pre| ==> short[i] == left)
      && (i == |pre| + 1 ==> short[i] == post[0])
  {
  }

  /** Taking the leaf after `left` out of the chain, as `merge_leaves` does. */
  method Unlink(left: Node, right: Node, ghost pre: seq<Node>, ghost post: seq<Node>) returns (wasTail: bool)
    requires ChainOk(pre + [left, right] + post)
    modifies left`nextleaf, NodesIn(post)`prevleaf
    ensures ChainOk(pre + [left] + post)
    ensures wasTail <==> post == []
  {
    ghost var long, short := pre + [left, right] + post, pre + [left] + post;
    assert long[|pre|] == left && long[|pre| + 1] == right && NextIn(long, |pre| + 1) == First(post);
    left.nextleaf := right.nextleaf;
    if left.nextleaf != null {
      left.nextleaf.prevleaf := left;
      wasTail := false;
    } else {
      wasTail := true;
    }
    forall i, j | 0 <= i < j < |short| ensures short[i] != short[j] {
      Spliced(pre, left, right, post, i);
      Spliced(pre, left, right, post, j);
    }
    forall i | 0 <= i < |short| ensures short[i].nextleaf == NextIn(short, i) && short[i].prevleaf == PrevIn(short, i) {
      Spliced(pre, left, right, post, i);
      if i != |pre| { assert short[i] != short[|pre|]; }
      if i != |pre| + 1 && post != [] { assert short[|pre| + 1] == post[0] != short[i]; }
    }
  }

  /** Putting a new leaf behind `left`, as `split_leaf_node` does. */
  method LinkAfter(left: Node, right: Node, ghost pre: seq<Node>, ghost post: seq<Node>) returns (wasTail: bool)
    requires ChainOk(pre + [left] + post) && right !in pre + [left] + post
    modifies left`nextleaf, right`prevleaf, right`nextleaf, NodesIn(post)`prevleaf
    ensures ChainOk(pre + [left, right] + post)
    ensures wasTail <==> post == []
  {
    ghost var long, short := pre + [left, right] + post, pre + [left] + post;
    assert short[|pre|] == left && NextIn(short, |pre|) == First(post);
    assert post != [] ==> post[0] == short[|pre| + 1];
    right.nextleaf := left.nextleaf;
    if right.nextleaf == null {
      wasTail := true;
    } else {
      right.nextleaf.prevleaf := right;
      wasTail := false;
    }
    left.nextleaf := right;
    right.prevleaf := left;
    forall i, j | 0 <= i < j < |long| ensures long[i] != long[j] {
      Widened(pre, left, right, post, i);
      Widened(pre, left, right, post, j);
    }
    forall i | 0 <= i < |long| ensures long[i].nextleaf == NextIn(long, i) && long[i].prevleaf == PrevIn(long, i) {
      Widened(pre, left, right, post, i);
      if i < |pre| { assert short[i] != short[|pre|]; }
      if i > |pre| + 2 { assert short[i - 1] != short[|pre| + 1] && short[i - 1] != short[|pre|]; }
      if i == |pre| + 2 { assert short[i - 1] != short[|pre|]; }
      if i < |pre| && post != [] { assert short[i] != short[|pre| + 1]; }
    }
  }

  /** The inverse view of `Spliced`. */
  lemma Widened(pre: seq<Node>, left: Node, right: Node, post: seq<Node>, i: nat)
    requires i < |pre| + 2 + |post|
    ensures var long, short := pre + [left, right] + post, pre + [left] + post;
      var j := if i <= |pre| then i else i - 1;
      && (i == |pre| + 1 ==> long[i] == right && NextIn(long, i) == First(post) && PrevIn(long, i) == left)
      && (i != |pre| + 1 ==>
            && long[i] == short[j]
            && NextIn(long, i) == (if i == |pre| then right else NextIn(short, j))
            && PrevIn(long, i) == (if i == |pre| + 2 then right else PrevIn(short, j)))
      && (i == |pre| ==> long[i] == left)
      && (i == |pre| + 2 ==> long[i] == post[0])
  {
  }
}
