/** The vector manipulations of InternalNode, on values: positional routing,
    range routing, the bookkeeping after a child split, the node's own split,
    one-child redistribution, merging, and the choice among the rebalancing
    branches of a delete. The store-level methods in NodeStore apply these. */
module InternalLogic {
  import opened Types

  // ---------------------------------------------------------------------
  // Routing (InternalNode.cpp:40-50 and 226-236)

  /** The routing loop started at index i. */
  function RouteFrom(keys: seq<Key>, size: int, key: Key, i: int): (posn: int)
    requires 1 <= size && size - 1 <= |keys| && 0 <= i <= size - 1
    ensures i <= posn <= size - 1
    ensures forall j :: i <= j < posn ==> keys[j] != DELETE_MARKER && key > keys[j]
    ensures posn < size - 1 ==> keys[posn] == DELETE_MARKER || key <= keys[posn]
    decreases size - 1 - i
  {
    if i == size - 1 then i
    else if keys[i] == DELETE_MARKER || key <= keys[i] then i
    else RouteFrom(keys, size, key, i + 1)
  }

  /** The child a key is routed to: the first separator slot that is unset
      or bounds the key from above, else the last child. */
  function Route(keys: seq<Key>, size: int, key: Key): (posn: int)
    requires 1 <= size && size - 1 <= |keys|
    ensures 0 <= posn <= size - 1
    ensures forall j :: 0 <= j < posn ==> keys[j] != DELETE_MARKER && key > keys[j]
    ensures posn < size - 1 ==> keys[posn] == DELETE_MARKER || key <= keys[posn]
  {
    RouteFrom(keys, size, key, 0)
  }

  /** The three routing conditions pin the position down. */
  lemma RouteUnique(keys: seq<Key>, size: int, key: Key, p: int)
    requires 1 <= size && size - 1 <= |keys| && 0 <= p <= size - 1
    requires forall j :: 0 <= j < p ==> keys[j] != DELETE_MARKER && key > keys[j]
    requires p < size - 1 ==> keys[p] == DELETE_MARKER || key <= keys[p]
    ensures p == Route(keys, size, key)
  {
  }

  /** The routing loop as the source runs it. */
  method FindPosition(keys: seq<Key>, size: int, key: Key) returns (posn: int)
    requires 1 <= size && size - 1 <= |keys|
    ensures posn == Route(keys, size, key)
  {
    posn := 0;
    while posn < size - 1
      invariant 0 <= posn <= size - 1
      invariant forall j :: 0 <= j < posn ==> keys[j] != DELETE_MARKER && key > keys[j]
    {
      if keys[posn] == DELETE_MARKER {
        break;
      }
      if key <= keys[posn] {
        break;
      }
      posn := posn + 1;
    }
    RouteUnique(keys, size, key, posn);
  }

  // ---------------------------------------------------------------------
  // Range routing (InternalNode.cpp:321-334)

  function RangeChildFrom(keys: seq<Key>, size: int, lo: Key, i: int): (c: int)
    requires 1 <= size && size - 1 <= |keys| && 0 <= i <= size - 1
    ensures i <= c <= size - 1
    ensures forall j :: i <= j < c ==> lo > keys[j]
    ensures c < size - 1 ==> lo <= keys[c]
    decreases size - 1 - i
  {
    if i == size - 1 then i
    else if lo <= keys[i] then i
    else RangeChildFrom(keys, size, lo, i + 1)
  }

  /** The one child a range query descends into: the first whose separator
      is at least the lower bound, else the last. Unlike Route it does not
      look for DELETE_MARKER. */
  function RangeChild(keys: seq<Key>, size: int, lo: Key): (c: int)
    requires 1 <= size && size - 1 <= |keys|
    ensures 0 <= c <= size - 1
    ensures forall j :: 0 <= j < c ==> lo > keys[j]
    ensures c < size - 1 ==> lo <= keys[c]
  {
    RangeChildFrom(keys, size, lo, 0)
  }

  /** Without unset slots, a range query descends where an insert of its
      lower bound would be routed. */
  lemma {:induction false} RangeChildIsRoute(keys: seq<Key>, size: int, lo: Key)
    requires 1 <= size && size - 1 <= |keys|
    requires forall j :: 0 <= j < size - 1 ==> keys[j] != DELETE_MARKER
    ensures RangeChild(keys, size, lo) == Route(keys, size, lo)
  {
    RouteUnique(keys, size, lo, RangeChild(keys, size, lo));
  }

  // ---------------------------------------------------------------------
  // single_child_ptr (InternalNode.cpp:21-25)

  function SingleChild(size: int, ptrs: seq<Ptr>): (r: Ptr)
    requires size == 1 ==> |ptrs| >= 1
    ensures size == 1 ==> r == ptrs[0]
    ensures size != 1 ==> IsNull(r)
  {
    if size == 1 then ptrs[0] else NULL_PTR
  }

  // ---------------------------------------------------------------------
  // Absorbing a child split (InternalNode.cpp:72-84)

  /** The temp-vector loop: the new locator goes right after position posn,
      the others keep their relative order. */
  method SpliceAfter(ptrs: seq<Ptr>, size: int, posn: int, s: Ptr) returns (temp: seq<Ptr>)
    requires 0 <= posn < size <= |ptrs|
    ensures |temp| == size + 1 && temp[posn + 1] == s
    ensures forall i :: 0 <= i <= posn ==> temp[i] == ptrs[i]
    ensures forall i :: posn < i < size ==> temp[i + 1] == ptrs[i]
    ensures size == |ptrs| ==> temp == PtrsAfterChildSplit(ptrs, posn, s)
  {
    temp := [];
    var i := 0;
    while i <= posn
      invariant 0 <= i <= posn + 1
      invariant temp == ptrs[..i]
    {
      temp := temp + [ptrs[i]];
      i := i + 1;
    }
    temp := temp + [s];
    i := posn + 1;
    while i < size
      invariant posn + 1 <= i <= size
      invariant temp == ptrs[..posn + 1] + [s] + ptrs[posn + 1..i]
    {
      temp := temp + [ptrs[i]];
      i := i + 1;
    }
  }

  /** The locator vector after a child split, as a value. */
  function PtrsAfterChildSplit(ptrs: seq<Ptr>, posn: int, s: Ptr): seq<Ptr>
    requires 0 <= posn < |ptrs|
  {
    ptrs[..posn + 1] + [s] + ptrs[posn + 1..]
  }

  /** The keys after a child split, AS WRITTEN: keys[posn] := child max,
      then the sibling's max is inserted at posn + 1. Defined only while
      posn indexes an existing key. */
  function KeysAfterChildSplitAsWritten(keys: seq<Key>, posn: int, cm: Key, sm: Key): seq<Key>
    requires 0 <= posn < |keys|
  {
    var k := keys[posn := cm];
    k[..posn + 1] + [sm] + k[posn + 1..]
  }

  /** The keys after a child split, CORRECTED: when the split child is the
      last one it has no separator yet, so its new max is appended and the
      new last child (the sibling) gets none. */
  function KeysAfterChildSplit(keys: seq<Key>, posn: int, cm: Key, sm: Key): (r: seq<Key>)
    requires 0 <= posn <= |keys|
    ensures |r| == |keys| + 1
    ensures posn < |keys| ==> r == KeysAfterChildSplitAsWritten(keys, posn, cm, sm)
  {
    if posn < |keys| then keys[..posn] + [cm, sm] + keys[posn + 1..]
    else keys + [cm]
  }

  /** When the key is above every separator (the common case of inserting
      in ascending order) it is routed to the last child, and there the
      as-written update indexes keys one past its end. */
  lemma LastChildSplitIndexesPastEnd(keys: seq<Key>, size: int, key: Key)
    requires 1 <= size && |keys| == size - 1
    requires forall j :: 0 <= j < size - 1 ==> keys[j] != DELETE_MARKER && key > keys[j]
    ensures Route(keys, size, key) == |keys|
  {
    RouteUnique(keys, size, key, size - 1);
  }

  /** A concrete instance: separators [10], key 20 goes to child 1 == |keys|. */
  lemma LastChildSplitExample()
    ensures Route([10], 2, 20) == 1 == |[10]|
  {
    LastChildSplitIndexesPastEnd([10], 2, 20);
  }

  /** Intended property of the corrected update: if every separator is the
      max of the child to its left before, it still is afterwards, with the
      split child's and the new sibling's maxes in place. */
  lemma SeparatorsAfterChildSplit(maxes: seq<Key>, posn: int, cm: Key, sm: Key)
    requires 0 <= posn < |maxes|
    ensures var m' := maxes[..posn] + [cm, sm] + maxes[posn + 1..];
            KeysAfterChildSplit(maxes[..|maxes| - 1], posn, cm, sm) == m'[..|m'| - 1]
  {
    var keys := maxes[..|maxes| - 1];
    var m' := maxes[..posn] + [cm, sm] + maxes[posn + 1..];
    if posn < |keys| {
      assert keys[..posn] == maxes[..posn];
      assert keys[posn + 1..] == maxes[posn + 1..|maxes| - 1];
      assert m'[..|m'| - 1] == maxes[..posn] + [cm, sm] + maxes[posn + 1..|maxes| - 1];
    } else {
      assert m' == maxes[..posn] + [cm, sm];
      assert m'[..|m'| - 1] == maxes[..posn] + [cm];
    }
  }

  /** The node after absorbing a split of child posn into new sibling s. */
  function AbsorbChildSplit<R>(n: Node<R>, posn: int, s: Ptr, cm: Key, sm: Key): (r: Node<R>)
    requires n.Internal? && |n.ptrs| == n.size && |n.keys| == n.size - 1 && 0 <= posn < n.size
    ensures r.Internal? && r.size == n.size + 1 && |r.ptrs| == r.size && |r.keys| == r.size - 1
    ensures r.ptrs[posn + 1] == s && r.ptrs[..posn + 1] == n.ptrs[..posn + 1]
    ensures r.ptrs[posn + 2..] == n.ptrs[posn + 1..]
  {
    Internal(n.size + 1, PtrsAfterChildSplit(n.ptrs, posn, s), KeysAfterChildSplit(n.keys, posn, cm, sm))
  }

  // ---------------------------------------------------------------------
  // Own split of an overflowing internal node (InternalNode.cpp:99-120)

  /** The copy loop: the new node takes locators mid..size-1 and keys
      mid..size-2, counting the locators. */
  method SplitChildren(ptrs: seq<Ptr>, keys: seq<Key>, size: int, mid: int)
    returns (rp: seq<Ptr>, rk: seq<Key>, rsize: int)
    requires 1 <= mid < size <= |ptrs| && size - 1 <= |keys|
    ensures rp == ptrs[mid..size] && rk == keys[mid..size - 1] && rsize == size - mid
  {
    rp, rk, rsize := [], [], 0;
    var i := mid;
    while i < size - 1
      invariant mid <= i <= size - 1
      invariant rp == ptrs[mid..i] && rk == keys[mid..i] && rsize == i - mid
    {
      rp := rp + [ptrs[i]];
      rk := rk + [keys[i]];
      rsize := rsize + 1;
      i := i + 1;
    }
    rp := rp + [ptrs[size - 1]];
    rsize := rsize + 1;
  }

  /** The original node in memory after its split: the erase calls keep
      mid + 1 locators and mid keys, one of each beyond the new size. */
  function SplitLeftInMemory<R>(n: Node<R>, mid: int): (r: Node<R>)
    requires n.Internal? && 1 <= mid < n.size && |n.ptrs| == n.size && |n.keys| == n.size - 1
    ensures r.Internal? && Persistable(r) && r.size == mid && |r.ptrs| == mid + 1 && |r.keys| == mid
  {
    Internal(mid, n.ptrs[..mid + 1], n.keys[..mid])
  }

  /** The new right node of a split. */
  function SplitRight<R>(n: Node<R>, mid: int): Node<R>
    requires n.Internal? && 1 <= mid < n.size && |n.ptrs| == n.size && |n.keys| == n.size - 1
  {
    Internal(n.size - mid, n.ptrs[mid..], n.keys[mid..])
  }

  /** The split itself: the copy loop builds the new right node, and the
      erase calls cut the original back to mid locators' worth. */
  method SplitNode<R>(n: Node<R>, mid: int) returns (left: Node<R>, right: Node<R>)
    requires n.Internal? && 1 <= mid < n.size && |n.ptrs| == n.size && |n.keys| == n.size - 1
    ensures left == SplitLeftInMemory(n, mid) && right == SplitRight(n, mid)
  {
    var rp, rk, rsize := SplitChildren(n.ptrs, n.keys, n.size, mid);
    right := Internal(rsize, rp, rk);
    left := Internal(mid, n.ptrs[..mid + 1], n.keys[..mid]);
  }

  /** The persisted halves of a split partition the locators in order and
      keep every key except keys[mid-1], which sits between them; if every
      separator was its left child's max, that holds in both halves. */
  lemma InternalSplitPartition<R>(n: Node<R>, mid: int, maxes: seq<Key>)
    requires n.Internal? && 1 <= mid < n.size && |n.ptrs| == n.size && |n.keys| == n.size - 1
    requires |maxes| == n.size && n.keys == maxes[..n.size - 1]
    ensures var l, r := Persist(SplitLeftInMemory(n, mid)), SplitRight(n, mid);
      && l.size + r.size == n.size && l.size == mid
      && l.ptrs + r.ptrs == n.ptrs
      && l.keys + [n.keys[mid - 1]] + r.keys == n.keys
      && |l.ptrs| == l.size && |l.keys| == l.size - 1
      && |r.ptrs| == r.size && |r.keys| == r.size - 1
      && l.keys == maxes[..mid - 1] && r.keys == maxes[mid..n.size - 1]
      && n.keys[mid - 1] == maxes[mid - 1]
  {
    var l, r := Persist(SplitLeftInMemory(n, mid)), SplitRight(n, mid);
    assert l.ptrs == n.ptrs[..mid];
    assert l.keys == n.keys[..mid - 1];
    assert n.ptrs[..mid] + n.ptrs[mid..] == n.ptrs;
    assert n.keys[..mid - 1] + [n.keys[mid - 1]] + n.keys[mid..] == n.keys;
  }

  // ---------------------------------------------------------------------
  // Redistribution (InternalNode.cpp:142-191)

  /** One locator and one key move from `from` to `to`: from's last pair to
      the front of `to` when fromIndex < toIndex, otherwise from's first
      pair to the end of `to`. Returns (from', to'). */
  function RedistributeInternal<R>(from: Node<R>, to: Node<R>, fromIndex: int, toIndex: int): (Node<R>, Node<R>)
    requires from.Internal? && to.Internal? && |from.ptrs| >= 1 && |from.keys| >= 1
  {
    if fromIndex < toIndex then
      (Internal(from.size - 1, from.ptrs[..|from.ptrs| - 1], from.keys[..|from.keys| - 1]),
       Internal(to.size + 1, [from.ptrs[|from.ptrs| - 1]] + to.ptrs, [from.keys[|from.keys| - 1]] + to.keys))
    else
      (Internal(from.size - 1, from.ptrs[1..], from.keys[1..]),
       Internal(to.size + 1, to.ptrs + [from.ptrs[0]], to.keys + [from.keys[0]]))
  }

  /** The sizes move by one, exact shapes stay exact, and reading the two
      nodes left to right gives the same locators and the same keys as
      before. */
  lemma RedistributeInternalEffect<R>(from: Node<R>, to: Node<R>, fromIndex: int, toIndex: int)
    requires from.Internal? && to.Internal? && |from.ptrs| >= 1 && |from.keys| >= 1
    ensures var (f, t) := RedistributeInternal(from, to, fromIndex, toIndex);
      && f.size == from.size - 1 && t.size == to.size + 1
      && (|from.ptrs| == from.size && |from.keys| == from.size - 1 ==> |f.ptrs| == f.size && |f.keys| == f.size - 1)
      && (|to.ptrs| == to.size && |to.keys| == to.size - 1 ==> |t.ptrs| == t.size && |t.keys| == t.size - 1)
      && (fromIndex < toIndex ==> f.ptrs + t.ptrs == from.ptrs + to.ptrs && f.keys + t.keys == from.keys + to.keys)
      && (fromIndex >= toIndex ==> t.ptrs + f.ptrs == to.ptrs + from.ptrs && t.keys + f.keys == to.keys + from.keys)
  {
    var (f, t) := RedistributeInternal(from, to, fromIndex, toIndex);
    if fromIndex < toIndex {
      assert from.ptrs == from.ptrs[..|from.ptrs| - 1] + [from.ptrs[|from.ptrs| - 1]];
      assert from.keys == from.keys[..|from.keys| - 1] + [from.keys[|from.keys| - 1]];
    } else {
      assert from.ptrs == [from.ptrs[0]] + from.ptrs[1..];
      assert from.keys == [from.keys[0]] + from.keys[1..];
    }
  }

  /** Left redistribution hands `to` a separator for the moved child that is
      the max of a different child: with separators equal to the child
      maxes and strictly increasing maxes, to's new first key is the max of
      from's second-to-last child, not of the moved last child. */
  lemma RedistributeLeftMovesWrongKey<R>(from: Node<R>, to: Node<R>, maxes: seq<Key>)
    requires from.Internal? && to.Internal? && |from.ptrs| == |maxes| >= 2
    requires from.keys == maxes[..|maxes| - 1] && maxes[|maxes| - 2] < maxes[|maxes| - 1]
    ensures RedistributeInternal(from, to, 0, 1).1.keys[0] != maxes[|maxes| - 1]
  {
  }

  /** Right redistribution gives to's old last child the separator
      from.keys[0]: with separators equal to the child maxes in both nodes,
      that is the max of from's first child, the one moved, and when to's
      children all lie below from's it is not the max of to's old last
      child. */
  lemma RedistributeRightMovesWrongKey<R>(from: Node<R>, to: Node<R>, fromMaxes: seq<Key>, toMaxes: seq<Key>)
    requires from.Internal? && to.Internal?
    requires |from.ptrs| == |fromMaxes| >= 2 && from.keys == fromMaxes[..|fromMaxes| - 1]
    requires |to.ptrs| == |toMaxes| >= 1 && to.keys == toMaxes[..|toMaxes| - 1]
    requires toMaxes[|toMaxes| - 1] < fromMaxes[0]
    ensures var t := RedistributeInternal(from, to, 1, 0).1;
      && t.ptrs[|to.keys|] == to.ptrs[|to.ptrs| - 1]
      && t.keys[|to.keys|] == fromMaxes[0]
      && t.keys[|to.keys|] != toMaxes[|toMaxes| - 1]
  {
  }

  // ---------------------------------------------------------------------
  // Merging (InternalNode.cpp:194-213)

  /** Append the max of self's last child as a key, then the sibling's
      locators (without its first one if it equals self's last one) and
      keys; size is recomputed from the key count. */
  function MergeInternal<R>(self: Node<R>, sib: Node<R>, lastMax: Key): Node<R>
    requires self.Internal? && sib.Internal? && |self.ptrs| >= 1 && |sib.ptrs| >= 1
  {
    var keys := self.keys + [lastMax] + sib.keys;
    var ptrs := if self.ptrs[|self.ptrs| - 1] != sib.ptrs[0] then self.ptrs + sib.ptrs
                else self.ptrs + sib.ptrs[1..];
    Internal(|keys| + 1, ptrs, keys)
  }

  /** With distinct boundary locators the merge concatenates and the sizes
      add up; separators that were child maxes on both sides stay child
      maxes across the seam. */
  lemma MergeInternalEffect<R>(self: Node<R>, sib: Node<R>, ms: seq<Key>, mb: seq<Key>)
    requires self.Internal? && sib.Internal? && |self.ptrs| == self.size >= 1 && |sib.ptrs| == sib.size >= 1
    requires |self.keys| == self.size - 1 && |sib.keys| == sib.size - 1
    requires self.ptrs[self.size - 1] != sib.ptrs[0]
    requires |ms| == self.size && |mb| == sib.size && self.keys == ms[..self.size - 1] && sib.keys == mb[..sib.size - 1]
    ensures var m := MergeInternal(self, sib, ms[self.size - 1]);
      && m.size == self.size + sib.size && m.ptrs == self.ptrs + sib.ptrs
      && |m.keys| == m.size - 1
      && m.keys == (ms + mb)[..m.size - 1]
  {
    var m := MergeInternal(self, sib, ms[self.size - 1]);
    assert ms == ms[..self.size - 1] + [ms[self.size - 1]];
    assert (ms + mb)[..m.size - 1] == ms + mb[..sib.size - 1];
  }

  /** When the boundary locators coincide, the shared one is kept once but
      size still counts it twice: one fewer locator than size says. */
  lemma MergeInternalSharedBoundary<R>(self: Node<R>, sib: Node<R>, lastMax: Key)
    requires self.Internal? && sib.Internal? && |self.ptrs| == self.size >= 1 && |sib.ptrs| == sib.size >= 1
    requires |self.keys| == self.size - 1 && |sib.keys| == sib.size - 1
    requires self.ptrs[self.size - 1] == sib.ptrs[0]
    ensures var m := MergeInternal(self, sib, lastMax);
      m.size == self.size + sib.size && |m.ptrs| == m.size - 1
  {
  }

  // ---------------------------------------------------------------------
  // The rebalancing cascade of a delete (InternalNode.cpp:251-316)

  datatype Rebalance = NoUnderflow | LeftRedistribute | LeftMerge | RightRedistribute | RightMerge

  /** The first applicable branch, in the source's fixed order. Sizes are
      those of the routed child and its neighbours after the child's own
      delete; a neighbour's size matters only when it exists. */
  function RebalanceChoice(posn: int, size: int, childSize: int, leftSize: int, rightSize: int): (b: Rebalance)
    ensures b == NoUnderflow <==> !Underflows(childSize)
    ensures b == LeftRedistribute ==> posn != 0 && childSize + leftSize >= 2 * MIN_OCCUPANCY
    ensures b == LeftMerge ==> posn != 0 && childSize + leftSize < 2 * MIN_OCCUPANCY
    ensures (b == RightRedistribute || b == RightMerge) ==> posn == 0
    ensures b == RightRedistribute ==> posn != size - 1 && childSize + rightSize >= 2 * MIN_OCCUPANCY
    ensures b == RightMerge ==> posn == size - 1 || childSize + rightSize < 2 * MIN_OCCUPANCY
    ensures Underflows(childSize) && posn != 0 ==> b == LeftRedistribute || b == LeftMerge
  {
    if !Underflows(childSize) then NoUnderflow
    else if posn != 0 && childSize + leftSize >= 2 * MIN_OCCUPANCY then LeftRedistribute
    else if posn != 0 then LeftMerge
    else if posn != size - 1 && childSize + rightSize >= 2 * MIN_OCCUPANCY then RightRedistribute
    else RightMerge
  }

  /** The neighbours of the child at posn; a missing neighbour is given as
      the child itself (the cascade never reads its size). */
  function LeftNeighbour<R>(n: Node<R>, posn: int): Ptr
    requires n.Internal? && 0 <= posn < |n.ptrs|
  {
    if posn > 0 then n.ptrs[posn - 1] else n.ptrs[posn]
  }

  function RightNeighbour<R>(n: Node<R>, posn: int): Ptr
    requires n.Internal? && 0 <= posn < |n.ptrs|
  {
    if posn < |n.ptrs| - 1 then n.ptrs[posn + 1] else n.ptrs[posn]
  }

  /** The separator refresh after a child's delete: slot posn takes the
      child's new max, except for the last child, which has no slot. */
  function RefreshSeparator(keys: seq<Key>, size: int, posn: int, m: Key): (r: seq<Key>)
    requires 0 <= posn < size && |keys| == size - 1
    ensures |r| == |keys|
    ensures forall i :: 0 <= i < |r| && i != posn ==> r[i] == keys[i]
    ensures posn < size - 1 ==> r[posn] == m
  {
    if posn != size - 1 then keys[posn := m] else keys
  }

  /** The parent as it is dumped at the end of a delete, given the branch
      taken, with n the parent after the separator refresh and m the max
      the redistributing branch reads back. A redistribution rewrites one
      separator: the left neighbour's, or the child's. A merge drops one
      locator (the child, absorbed by its left neighbour, or the right
      neighbour, absorbed by the child) and the separator of the left one
      of the two merged nodes, so the merged node inherits the separator of
      the right one. */
  function RebalancedParent<R>(n: Node<R>, posn: int, b: Rebalance, m: Key): (r: Node<R>)
    requires n.Internal? && 2 <= n.size && |n.ptrs| == n.size && |n.keys| == n.size - 1 && 0 <= posn < n.size
    requires b == LeftRedistribute || b == LeftMerge ==> posn != 0
    requires b == RightRedistribute || b == RightMerge ==> posn != n.size - 1
    ensures r.Internal? && |r.ptrs| == r.size && |r.keys| == r.size - 1
    ensures (b == NoUnderflow || b == LeftRedistribute || b == RightRedistribute) ==>
      r.size == n.size && r.ptrs == n.ptrs
    ensures b == NoUnderflow ==> r == n
    ensures b == LeftRedistribute ==>
      r.keys[posn - 1] == m && forall i :: 0 <= i < |r.keys| && i != posn - 1 ==> r.keys[i] == n.keys[i]
    ensures b == RightRedistribute ==>
      r.keys[posn] == m && forall i :: 0 <= i < |r.keys| && i != posn ==> r.keys[i] == n.keys[i]
    ensures b == LeftMerge ==>
      && r.size == n.size - 1
      && (forall i :: 0 <= i < r.size ==> r.ptrs[i] == n.ptrs[if i < posn then i else i + 1])
      && (forall i :: 0 <= i < r.size - 1 ==> r.keys[i] == n.keys[if i < posn - 1 then i else i + 1])
    ensures b == RightMerge ==>
      && r.size == n.size - 1
      && (forall i :: 0 <= i < r.size ==> r.ptrs[i] == n.ptrs[if i <= posn then i else i + 1])
      && (forall i :: 0 <= i < r.size - 1 ==> r.keys[i] == n.keys[if i < posn then i else i + 1])
  {
    match b
    case NoUnderflow => n
    case LeftRedistribute => Internal(n.size, n.ptrs, n.keys[posn - 1 := m])
    case LeftMerge => Internal(n.size - 1, n.ptrs[..posn] + n.ptrs[posn + 1..], n.keys[..posn - 1] + n.keys[posn..])
    case RightRedistribute => Internal(n.size, n.ptrs, n.keys[posn := m])
    case RightMerge => Internal(n.size - 1, n.ptrs[..posn + 1] + n.ptrs[posn + 2..], n.keys[..posn] + n.keys[posn + 1..])
  }
}
