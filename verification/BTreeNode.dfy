/** Values that are not there yet, or not any more. */
module Options {
  datatype Option<+T> = None | Some(value: T)
}

/**
 * The template parameters of `stx::btree`, its items and its nodes.
 *
 * The slot counts and the duplicates flag are template parameters of the
 * original. They are constants without a value here, so that every result
 * holds for all of their values.
 */
module BTreeNode {

  // Keys are compared only with `key_less`, which has to be a total order.
  type Key = int

  // Data is stored and moved, never looked at.
  type Data(0, ==, !new)

  datatype Item = Item(key: Key, data: Data)

  // The default traits never go below eight slots.
  type SlotCount = n: nat | 8 <= n witness 8

  const LEAF_SLOT_MAX: SlotCount
  const INNER_SLOT_MAX: SlotCount
  const MIN_LEAF_SLOTS: nat := LEAF_SLOT_MAX / 2
  const MIN_INNER_SLOTS: nat := INNER_SLOT_MAX / 2
  const ALLOW_DUPLICATES: bool

  /** `s` with the slots from `d` on overwritten by `part`. */
  function Overwritten<T>(s: seq<T>, d: nat, part: seq<T>): (r: seq<T>)
    requires d + |part| <= |s|
    ensures |r| == |s|
    ensures forall j | d + |part| <= j < |s| :: r[j] == s[j]
    ensures r[..d + |part|] == s[..d] + part
    ensures part == [] ==> r == s
  {
    s[..d] + part + s[d + |part|..]
  }

  lemma OverwrittenPrefix<T>(s: seq<T>, d: nat, part: seq<T>, n: nat)
    requires n == d + |part| <= |s|
    ensures Overwritten(s, d, part)[..n] == s[..d] + part
  {
  }

  lemma OverwrittenStep<T>(s: seq<T>, d: nat, from: seq<T>, a: nat, i: nat)
    requires a + i < |from| && d + i < |s|
    ensures Overwritten(s, d, from[a..a + i + 1]) == Overwritten(s, d, from[a..a + i])[d + i := from[a + i]]
  {
    var x, y := Overwritten(s, d, from[a..a + i + 1]), Overwritten(s, d, from[a..a + i])[d + i := from[a + i]];
    forall k | 0 <= k < |s| ensures x[k] == y[k] {
    }
  }

  /**
   * A node in memory: the structs `node`, `inner_node` and `leaf_node` in one,
   * told apart by `level` as the casts of the original do. The slot arrays are
   * part of the struct, so they are fields that no other node can share; slots
   * from `slotuse` on hold stale values.
   */
  class Node {
    var level: nat
    var slotuse: nat
    var slotkey: seq<Key>
    var childid: seq<Node?>
    var slotdata: seq<Data>
    var prevleaf: Node?
    var nextleaf: Node?

    constructor InitLeaf()
      ensures level == 0 && slotuse == 0
      ensures |slotkey| == LEAF_SLOT_MAX && |slotdata| == LEAF_SLOT_MAX
      ensures prevleaf == null && nextleaf == null
    {
      level, slotuse := 0, 0;
      var key: Key := 0;
      var data: Data := *;
      slotkey := seq(LEAF_SLOT_MAX, _ => key);
      slotdata := seq(LEAF_SLOT_MAX, _ => data);
      childid := [];
      prevleaf, nextleaf := null, null;
    }

    constructor InitInner(l: nat)
      ensures level == l && slotuse == 0
      ensures |slotkey| == INNER_SLOT_MAX && |childid| == INNER_SLOT_MAX + 1
    {
      level, slotuse := l, 0;
      slotkey := seq(INNER_SLOT_MAX, _ => 0);
      childid := seq(INNER_SLOT_MAX + 1, _ => null);
      slotdata := [];
      prevleaf, nextleaf := null, null;
    }
  
    /**
     * The copy loop over leaf slots, first slot first: `count` slots of `src`
     * from `s` on go to this node from `d` on. Within one node it moves slots
     * towards the front.
     */
    method CopyLeafSlots(d: nat, src: Node, s: nat, count: nat)
      requires d + count <= |slotkey| && |slotdata| == |slotkey|
      requires s + count <= |src.slotkey| && |src.slotdata| == |src.slotkey|
      requires src == this ==> d <= s
      modifies this`slotkey, this`slotdata
      ensures slotkey == old(Overwritten(slotkey, d, src.slotkey[s..s + count]))
      ensures slotdata == old(Overwritten(slotdata, d, src.slotdata[s..s + count]))
    {
      hide Overwritten;
      ghost var to, toData, from, fromData := slotkey, slotdata, src.slotkey, src.slotdata;
      var i := 0;
      while i < count
        invariant i <= count
        invariant slotkey == Overwritten(to, d, from[s..s + i])
        invariant slotdata == Overwritten(toData, d, fromData[s..s + i])
        invariant src != this ==> src.slotkey == from && src.slotdata == fromData
      {
        OverwrittenStep(to, d, from, s, i);
        OverwrittenStep(toData, d, fromData, s, i);
        assert src.slotkey[s + i] == from[s + i] && src.slotdata[s + i] == fromData[s + i];
        slotkey := slotkey[d + i := src.slotkey[s + i]];
        slotdata := slotdata[d + i := src.slotdata[s + i]];
        i := i + 1;
      }
    }

    /** The copy loop over inner slots: keys and the children before them. */
    method CopyInnerSlots(d: nat, src: Node, s: nat, count: nat)
      requires d + count <= |slotkey| < |childid|
      requires s + count <= |src.slotkey| < |src.childid|
      requires src == this ==> d <= s
      modifies this`slotkey, this`childid
      ensures slotkey == old(Overwritten(slotkey, d, src.slotkey[s..s + count]))
      ensures childid == old(Overwritten(childid, d, src.childid[s..s + count]))
    {
      hide Overwritten;
      ghost var to, toKids, from, fromKids := slotkey, childid, src.slotkey, src.childid;
      var i := 0;
      while i < count
        invariant i <= count
        invariant slotkey == Overwritten(to, d, from[s..s + i])
        invariant childid == Overwritten(toKids, d, fromKids[s..s + i])
        invariant src != this ==> src.slotkey == from && src.childid == fromKids
      {
        OverwrittenStep(to, d, from, s, i);
        OverwrittenStep(toKids, d, fromKids, s, i);
        assert src.slotkey[s + i] == from[s + i] && src.childid[s + i] == fromKids[s + i];
        slotkey := slotkey[d + i := src.slotkey[s + i]];
        childid := childid[d + i := src.childid[s + i]];
        i := i + 1;
      }
    }

    /** The loops that make room: the first `count` slots move up by `shift`, last slot first. */
    method RaiseLeafSlots(shift: nat, count: nat)
      requires count + shift <= |slotkey| == |slotdata|
      modifies this`slotkey, this`slotdata
      ensures |slotkey| == |slotdata| == old(|slotkey|)
      ensures slotkey[shift..shift + count] == old(slotkey[..count])
      ensures slotdata[shift..shift + count] == old(slotdata[..count])
    {
      ghost var len := |slotkey|;
      var i := count;
      while i > 0
        invariant 0 <= i <= count && |slotkey| == |slotdata| == len
        invariant forall k | 0 <= k < i :: slotkey[k] == old(slotkey)[k] && slotdata[k] == old(slotdata)[k]
        invariant slotkey[i + shift..count + shift] == old(slotkey)[i..count]
        invariant slotdata[i + shift..count + shift] == old(slotdata)[i..count]
      {
        i := i - 1;
        slotkey := slotkey[i + shift := slotkey[i]];
        slotdata := slotdata[i + shift := slotdata[i]];
      }
    }

    method RaiseInnerSlots(shift: nat, count: nat)
      requires count + shift <= |slotkey| < |childid|
      modifies this`slotkey, this`childid
      ensures |slotkey| == old(|slotkey|) && |childid| == old(|childid|)
      ensures slotkey[shift..shift + count] == old(slotkey[..count])
      ensures childid[shift..shift + count] == old(childid[..count])
      ensures childid[shift + count..] == old(childid[shift + count..])
    {
      ghost var len, kids := |slotkey|, |childid|;
      var i := count;
      while i > 0
        invariant 0 <= i <= count && |slotkey| == len && |childid| == kids
        invariant forall k | 0 <= k < i :: slotkey[k] == old(slotkey)[k] && childid[k] == old(childid)[k]
        invariant slotkey[i + shift..count + shift] == old(slotkey)[i..count]
        invariant childid[i + shift..count + shift] == old(childid)[i..count]
        invariant childid[count + shift..] == old(childid)[count + shift..]
      {
        i := i - 1;
        slotkey := slotkey[i + shift := slotkey[i]];
        childid := childid[i + shift := childid[i]];
      }
    }
  
    /** The loop that removes child `s` and the key before it. */
    method RemoveInnerSlot(s: nat)
      requires 0 < s <= slotuse <= |slotkey| < |childid|
      modifies this`slotkey, this`childid, this`slotuse
      ensures |slotkey| == old(|slotkey|) && |childid| == old(|childid|)
      ensures slotuse == old(slotuse) - 1
      ensures slotkey[..slotuse] == old(slotkey[..s - 1] + slotkey[s..slotuse])
      ensures childid[..slotuse + 1] == old(childid[..s] + childid[s + 1..slotuse + 1])
    {
      hide Overwritten;
      ghost var keys, kids := slotkey, childid;
      var i := s;
      while i < slotuse
        invariant slotuse == old(slotuse)
        invariant s <= i <= slotuse
        invariant slotkey == Overwritten(keys, s - 1, keys[s..i])
        invariant childid == Overwritten(kids, s, kids[s + 1..i + 1])
      {
        OverwrittenStep(keys, s - 1, keys, s, i - s);
        OverwrittenStep(kids, s, kids, s + 1, i - s);
        slotkey := slotkey[i - 1 := slotkey[i]];
        childid := childid[i := childid[i + 1]];
        i := i + 1;
      }
      OverwrittenPrefix(keys, s - 1, keys[s..slotuse], slotuse - 1);
      OverwrittenPrefix(kids, s, kids[s + 1..slotuse + 1], slotuse);
      slotuse := slotuse - 1;
    }
  }
}
