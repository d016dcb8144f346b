/** Sequences of items: order, membership, removal of the first match. */
module BTreeItems {
  import opened BTreeNode

  ghost predicate SortedKeys(s: seq<Key>) {
    forall i, j | 0 <= i < j < |s| :: s[i] <= s[j]
  }

  ghost predicate SortedItems(s: seq<Item>) {
    forall i, j | 0 <= i < j < |s| :: s[i].key <= s[j].key
  }

  function KeysOf(s: seq<Item>): (ks: seq<Key>)
    ensures |ks| == |s| && forall i | 0 <= i < |s| :: ks[i] == s[i].key
  {
    seq(|s|, i requires 0 <= i < |s| => s[i].key)
  }

  ghost predicate HasKey(s: seq<Item>, key: Key) {
    exists i | 0 <= i < |s| :: s[i].key == key
  }

  /** No two items share a key. */
  ghost predicate UniqueKeys(s: seq<Item>) {
    forall i, j | 0 <= i < j < |s| :: s[i].key != s[j].key
  }

  function CountKey(s: seq<Item>, key: Key): nat {
    if s == [] then 0 else (if s[0].key == key then 1 else 0) + CountKey(s[1..], key)
  }

  /** The sequence without any item that has the key. */
  function RemoveAll(s: seq<Item>, key: Key): seq<Item> {
    if s == [] then []
    else if s[0].key == key then RemoveAll(s[1..], key)
    else [s[0]] + RemoveAll(s[1..], key)
  }

  /** The sequence without its first item that has the key. */
  function RemoveFirst(s: seq<Item>, key: Key): seq<Item> {
    if s == [] then []
    else if s[0].key == key then s[1..]
    else [s[0]] + RemoveFirst(s[1..], key)
  }

  lemma {:induction false} RemoveFirstConcat(a: seq<Item>, b: seq<Item>, key: Key)
    ensures RemoveFirst(a + b, key) ==
            if HasKey(a, key) then RemoveFirst(a, key) + b else a + RemoveFirst(b, key)
  {
    if a == [] {
      assert a + b == b;
      assert a + RemoveFirst(b, key) == RemoveFirst(b, key);
    } else {
      assert (a + b)[1..] == a[1..] + b;
      if a[0].key != key {
        RemoveFirstConcat(a[1..], b, key);
        if HasKey(a, key) {
          var i :| 0 <= i < |a| && a[i].key == key;
          assert a[1..][i - 1].key == key;
          assert [a[0]] + (RemoveFirst(a[1..], key) + b) == RemoveFirst(a, key) + b;
        } else {
          forall i | 0 <= i < |a[1..]| ensures a[1..][i].key != key { assert a[1..][i] == a[i + 1]; }
          assert [a[0]] + (a[1..] + RemoveFirst(b, key)) == a + RemoveFirst(b, key);
        }
      } else {
        assert HasKey(a, key);
      }
    }
  }

  /** Without the key there is nothing to remove. */
  lemma {:induction false} RemoveFirstAbsent(s: seq<Item>, key: Key)
    requires !HasKey(s, key)
    ensures RemoveFirst(s, key) == s
  {
    if s != [] {
      forall i | 0 <= i < |s[1..]| ensures s[1..][i].key != key { assert s[1..][i] == s[i + 1]; }
      RemoveFirstAbsent(s[1..], key);
    }
  }

  /** Removal at the first index that has the key. */
  lemma {:induction false} RemoveFirstAt(s: seq<Item>, key: Key, p: nat)
    requires p < |s| && s[p].key == key
    requires forall i | 0 <= i < p :: s[i].key != key
    ensures RemoveFirst(s, key) == s[..p] + s[p + 1..]
  {
    assert s == s[..p] + s[p..];
    RemoveFirstConcat(s[..p], s[p..], key);
    assert s[p..][1..] == s[p + 1..];
  }

  /** Removing once more takes one occurrence away and does not matter to removing all. */
  lemma {:induction false} RemoveFirstStep(s: seq<Item>, key: Key)
    ensures HasKey(s, key) <==> CountKey(s, key) > 0
    ensures RemoveAll(RemoveFirst(s, key), key) == RemoveAll(s, key)
    ensures CountKey(RemoveFirst(s, key), key) == CountKey(s, key) - if HasKey(s, key) then 1 else 0
    ensures |RemoveFirst(s, key)| == |s| - if HasKey(s, key) then 1 else 0
    ensures !HasKey(s, key) ==> RemoveAll(s, key) == s
  {
    if s != [] {
      RemoveFirstStep(s[1..], key);
      assert s == [s[0]] + s[1..];
      if HasKey(s[1..], key) {
        var i :| 0 <= i < |s[1..]| && s[1..][i].key == key;
        assert s[i + 1].key == key;
      } else if s[0].key != key {
        forall i | 0 <= i < |s| ensures s[i].key != key { if i > 0 { assert s[1..][i - 1] == s[i]; } }
      }
      if s[0].key != key {
        assert RemoveFirst(s, key)[1..] == RemoveFirst(s[1..], key);
      } else {
        assert HasKey(s, key);
      }
    }
  }

  lemma {:induction false} UniqueCount(s: seq<Item>, key: Key)
    requires UniqueKeys(s)
    ensures CountKey(s, key) <= 1 && UniqueKeys(RemoveFirst(s, key))
    ensures forall i | 0 <= i < |RemoveFirst(s, key)| :: RemoveFirst(s, key)[i] in s
  {
    if s != [] {
      forall i, j | 0 <= i < j < |s[1..]| ensures s[1..][i].key != s[1..][j].key {
        assert s[1..][i] == s[i + 1] && s[1..][j] == s[j + 1];
      }
      UniqueCount(s[1..], key);
      if s[0].key == key {
        RemoveFirstStep(s[1..], key);
        forall i | 0 <= i < |s[1..]| ensures s[1..][i].key != key { assert s[1..][i] == s[i + 1]; }
      } else {
        var r := RemoveFirst(s[1..], key);
        forall j | 0 <= j < |r| ensures r[j].key != s[0].key && r[j] in s {
          var k :| 0 <= k < |s[1..]| && s[1..][k] == r[j];
          assert s[k + 1] == r[j];
        }
      }
    }
  }

  lemma SortedConcat(a: seq<Item>, b: seq<Item>)
    ensures SortedItems(a + b) <==>
            SortedItems(a) && SortedItems(b) && (a != [] && b != [] ==> a[|a| - 1].key <= b[0].key)
  {
    var s := a + b;
    if SortedItems(s) {
      forall i, j | 0 <= i < j < |a| ensures a[i].key <= a[j].key { assert s[i] == a[i] && s[j] == a[j]; }
      forall i, j | 0 <= i < j < |b| ensures b[i].key <= b[j].key {
        assert s[|a| + i] == b[i] && s[|a| + j] == b[j];
      }
      if a != [] && b != [] { assert s[|a| - 1] == a[|a| - 1] && s[|a|] == b[0]; }
    }
  }

  /** The first index whose key is not less than `key`. */
  function FindLower(keys: seq<Key>, key: Key): (slot: nat)
    ensures slot <= |keys|
    ensures forall i | 0 <= i < slot :: keys[i] < key
    ensures slot < |keys| ==> key <= keys[slot]
  {
    if keys == [] || key <= keys[0] then 0 else 1 + FindLower(keys[1..], key)
  }

  /** The first index whose key is greater than `key`. */
  function FindUpper(keys: seq<Key>, key: Key): (slot: nat)
    ensures slot <= |keys|
    ensures forall i | 0 <= i < slot :: keys[i] <= key
    ensures slot < |keys| ==> key < keys[slot]
  {
    if keys == [] || key < keys[0] then 0 else 1 + FindUpper(keys[1..], key)
  }
}

/** The B+ tree as a value, and the invariant that `verify` checks. */
module BTreeTree {
  import opened BTreeNode
  import opened BTreeItems

  /** A subtree together with the memory nodes that hold it. */
  datatype Tree =
    | Leaf(ref: Node, items: seq<Item>)
    | Inner(ref: Node, level: nat, keys: seq<Key>, kids: seq<Tree>)
  {
    function Level(): nat {
      if Leaf? then 0 else level
    }

    /** The original's `slotuse`. */
    function Use(): nat {
      if Leaf? then |items| else |keys|
    }

    function MinSlots(): nat {
      if Leaf? then MIN_LEAF_SLOTS else MIN_INNER_SLOTS
    }

    function MaxSlots(): nat {
      if Leaf? then LEAF_SLOT_MAX else INNER_SLOT_MAX
    }

    predicate IsFew() {
      Use() <= MinSlots()
    }

    predicate IsUnderflow() {
      Use() < MinSlots()
    }
  }

  /** The pairs of a subtree, in order. */
  function Contents(t: Tree): seq<Item>
    decreases t, 0
  {
    match t
    case Leaf(_, items) => items
    case Inner(_, _, _, kids) => Flat(kids)
  }

  function Flat(kids: seq<Tree>): seq<Item>
    decreases kids, 1
  {
    if kids == [] then [] else Contents(kids[0]) + Flat(kids[1..])
  }

  ghost function LowKey(t: Tree): Key
    requires Contents(t) != []
  {
    Contents(t)[0].key
  }

  ghost function HighKey(t: Tree): Key
    requires Contents(t) != []
  {
    Contents(t)[|Contents(t)| - 1].key
  }

  /** Each separator is the greatest key on its left and bounds its right. */
  ghost predicate Separated(keys: seq<Key>, kids: seq<Tree>) {
    && |kids| == |keys| + 1
    && (forall i | 0 <= i < |kids| :: Contents(kids[i]) != [])
    && (forall i | 0 <= i < |keys| :: keys[i] == HighKey(kids[i]))
    && (forall i | 0 <= i < |keys| :: keys[i] <= LowKey(kids[i + 1]))
  }

  /**
   * The invariant of a subtree whose top node has at least `few` slots in use.
   */
  ghost predicate Valid(t: Tree, few: nat)
    decreases t, 0
  {
    match t
    case Leaf(_, items) => few <= |items| <= LEAF_SLOT_MAX && SortedItems(items)
    case Inner(_, level, keys, kids) =>
      && level > 0
      && |kids| == |keys| + 1
      && few <= |keys| <= INNER_SLOT_MAX
      && Separated(keys, kids)
      && KidsValid(level, kids, -1)
  }

  /** All children have the next level and the least fill; child `short` may miss one slot. */
  ghost predicate KidsValid(level: nat, kids: seq<Tree>, short: int)
    decreases kids, 1
  {
    forall i | 0 <= i < |kids| ::
      && kids[i].Level() + 1 == level
      && Valid(kids[i], kids[i].MinSlots() - if i == short then 1 else 0)
  }

  /** An inner node one of whose children has just lost a slot. */
  ghost predicate ValidBut(t: Tree, few: nat, short: nat) {
    && t.Inner? && t.level > 0
    && |t.kids| == |t.keys| + 1
    && few <= |t.keys| <= INNER_SLOT_MAX
    && Separated(t.keys, t.kids)
    && KidsValid(t.level, t.kids, short)
  }

  /** The bounds that go with `Valid`, without its recursion. */
  lemma {:induction false} Bounds(t: Tree, few: nat)
    requires Valid(t, few)
    ensures few <= t.Use() <= t.MaxSlots()
    ensures t.Leaf? <==> t.Level() == 0
    ensures t.Inner? ==> |t.kids| == |t.keys| + 1 && Separated(t.keys, t.kids) && KidsValid(t.level, t.kids, -1)
  {
    hide KidsValid;
  }

  // Contents of several children

  lemma {:induction false} FlatConcat(a: seq<Tree>, b: seq<Tree>)
    ensures Flat(a + b) == Flat(a) + Flat(b)
  {
    if a == [] {
      assert a + b == b;
    } else {
      assert (a + b)[1..] == a[1..] + b;
      FlatConcat(a[1..], b);
    }
  }

  lemma {:induction false} FlatOne(t: Tree)
    ensures Flat([t]) == Contents(t)
  {
    assert Flat([t]) == Contents(t) + Flat([t][1..]);
  }

  lemma {:induction false} FlatTwo(x: Tree, y: Tree)
    ensures Flat([x, y]) == Contents(x) + Contents(y)
  {
    assert [x, y][1..] == [y];
    FlatOne(y);
  }

  lemma {:induction false} FlatAt(kids: seq<Tree>, i: nat)
    requires i < |kids|
    ensures Flat(kids) == Flat(kids[..i]) + Contents(kids[i]) + Flat(kids[i + 1..])
  {
    assert kids == kids[..i] + kids[i..];
    FlatConcat(kids[..i], kids[i..]);
    assert kids[i..][1..] == kids[i + 1..];
  }

  lemma {:induction false} FlatAtTwo(kids: seq<Tree>, i: nat)
    requires i + 1 < |kids|
    ensures Flat(kids) == Flat(kids[..i]) + (Contents(kids[i]) + Contents(kids[i + 1])) + Flat(kids[i + 2..])
  {
    FlatAt(kids, i);
    FlatAt(kids[i + 1..], 0);
    assert kids[i + 1..][1..] == kids[i + 2..];
    assert Flat(kids[i + 1..][..0]) == [];
    assert Flat(kids) == Flat(kids[..i]) + Contents(kids[i]) + (Contents(kids[i + 1]) + Flat(kids[i + 2..]));
  }

  /** Order of separated children: sorted, from the first low key to the last high key. */
  lemma {:induction false} FlatSorted(keys: seq<Key>, kids: seq<Tree>)
    requires Separated(keys, kids)
    requires forall i | 0 <= i < |kids| :: SortedItems(Contents(kids[i]))
    ensures SortedItems(Flat(kids)) && Flat(kids) != []
    ensures Flat(kids)[0].key == LowKey(kids[0])
    ensures Flat(kids)[|Flat(kids)| - 1].key == HighKey(kids[|kids| - 1])
  {
    hide Contents, Flat;
    if |kids| == 1 {
      assert kids == [kids[0]];
      FlatOne(kids[0]);
    } else {
      SeparatedTail(keys, kids);
      FlatTop(kids);
      FlatSorted(keys[1..], kids[1..]);
      SortedConcat(Contents(kids[0]), Flat(kids[1..]));
      assert keys[0] <= LowKey(kids[0 + 1]);
    }
  }

  lemma FlatTop(kids: seq<Tree>)
    requires kids != []
    ensures Flat(kids) == Contents(kids[0]) + Flat(kids[1..])
  {
  }

  lemma SeparatedTail(keys: seq<Key>, kids: seq<Tree>)
    requires Separated(keys, kids) && |keys| > 0
    ensures Separated(keys[1..], kids[1..])
  {
    hide Contents, LowKey, HighKey;
    forall i | 0 <= i < |keys[1..]|
      ensures keys[1..][i] == HighKey(kids[1..][i]) && keys[1..][i] <= LowKey(kids[1..][i + 1])
    {
      assert keys[i + 1] == HighKey(kids[i + 1]) && keys[i + 1] <= LowKey(kids[i + 1 + 1]);
    }
  }

  lemma {:induction false} ContentsSorted(t: Tree, few: nat)
    requires Valid(t, few)
    ensures SortedItems(Contents(t))
    ensures t.Inner? || few > 0 ==> Contents(t) != []
    decreases t
  {
    if t.Inner? {
      KidsSorted(t.level, t.kids, -1);
      FlatSorted(t.keys, t.kids);
    }
  }

  lemma {:induction false} KidsSorted(level: nat, kids: seq<Tree>, short: int)
    requires KidsValid(level, kids, short)
    ensures forall i | 0 <= i < |kids| :: SortedItems(Contents(kids[i]))
    decreases kids, 0
  {
    forall i | 0 <= i < |kids| ensures SortedItems(Contents(kids[i])) {
      ContentsSorted(kids[i], kids[i].MinSlots() - if i == short then 1 else 0);
    }
  }

  /** Low and high key of an inner node are those of its outer children. */
  lemma {:induction false} InnerEnds(keys: seq<Key>, kids: seq<Tree>)
    requires Separated(keys, kids)
    ensures Flat(kids) != []
    ensures Flat(kids)[0].key == LowKey(kids[0])
    ensures Flat(kids)[|Flat(kids)| - 1].key == HighKey(kids[|kids| - 1])
  {
    FlatAt(kids, 0);
    FlatAt(kids, |kids| - 1);
    assert Flat(kids[..0]) == [];
    assert kids[|kids| - 1 + 1..] == [];
  }

  lemma {:induction false} InnerHigh(t: Tree)
    requires t.Inner? && Separated(t.keys, t.kids)
    ensures Contents(t) != [] && HighKey(t) == HighKey(t.kids[|t.keys|])
    ensures LowKey(t) == LowKey(t.kids[0])
  {
    hide Flat;
    InnerEnds(t.keys, t.kids);
  }

  lemma {:induction false} SeparatorsSorted(keys: seq<Key>, kids: seq<Tree>)
    requires Separated(keys, kids)
    requires forall i | 0 <= i < |kids| :: SortedItems(Contents(kids[i]))
    ensures SortedKeys(keys)
  {
    forall i, j | 0 <= i < j < |keys| ensures keys[i] <= keys[j] {
      SeparatorsOrdered(keys, kids, i, j);
    }
  }

  lemma {:induction false} SeparatorsOrdered(keys: seq<Key>, kids: seq<Tree>, i: nat, j: nat)
    requires Separated(keys, kids)
    requires forall i | 0 <= i < |kids| :: SortedItems(Contents(kids[i]))
    requires i <= j < |keys|
    ensures keys[i] <= keys[j]
  {
    if i < j {
      SeparatorsOrdered(keys, kids, i, j - 1);
      assert keys[j - 1] <= LowKey(kids[j - 1 + 1]);
      assert LowKey(kids[j]) <= HighKey(kids[j]);
    }
  }

  // Memory footprint

  ghost function Foot(t: Tree): set<Node>
    decreases t, 0
  {
    if t.Leaf? then {t.ref} else {t.ref} + FootAll(t.kids)
  }

  ghost function FootAll(kids: seq<Tree>): set<Node>
    decreases kids, 1
  {
    if kids == [] then {} else Foot(kids[0]) + FootAll(kids[1..])
  }

  /** No memory node occurs twice in the subtree. */
  ghost predicate Apart(t: Tree)
    decreases t, 0
  {
    t.Inner? ==> t.ref !in FootAll(t.kids) && AllApart(t.kids)
  }

  ghost predicate AllApart(kids: seq<Tree>)
    decreases kids, 1
  {
    kids != [] ==> Apart(kids[0]) && Foot(kids[0]) !! FootAll(kids[1..]) && AllApart(kids[1..])
  }

  lemma {:induction false} FootConcat(a: seq<Tree>, b: seq<Tree>)
    ensures FootAll(a + b) == FootAll(a) + FootAll(b)
    ensures AllApart(a + b) <==> AllApart(a) && AllApart(b) && FootAll(a) !! FootAll(b)
  {
    if a == [] {
      assert a + b == b;
    } else {
      assert (a + b)[1..] == a[1..] + b;
      FootConcat(a[1..], b);
    }
  }

  lemma {:induction false} FootAt(kids: seq<Tree>, i: nat)
    requires i < |kids|
    ensures Foot(kids[i]) <= FootAll(kids)
    ensures AllApart(kids) ==> Apart(kids[i])
  {
    if i > 0 {
      assert kids[1..][i - 1] == kids[i];
      FootAt(kids[1..], i - 1);
    }
  }
}
