/** The block store as a value: a map from locators to nodes. This module
    states what a well-formed store is, what LeafNode's mutations do to it
    (as functions the NodeStore methods are proved against), the subtree
    max, and the lemmas that the store edits keep it well-formed. */
module StoreState {
  import opened Types
  import opened LeafEntries
  import opened InternalLogic

  // ---------------------------------------------------------------------
  // Well-formed stores

  /** The locators an internal node names as children. */
  function Children<R>(n: Node<R>): set<Ptr>
  {
    if n.Internal? then set c | c in n.ptrs else {}
  }

  ghost predicate Distinct(s: seq<Ptr>)
  {
    forall i, j :: 0 <= i < j < |s| ==> s[i] != s[j]
  }

  /** A node as the store keeps it: a leaf's counter equals its entry count
      and its entries are ordered; an internal node has exactly `size`
      distinct children (all allocated before `bound`) and `size - 1` keys. */
  ghost predicate NodeOk<R>(n: Node<R>, bound: Ptr)
  {
    match n
    case Leaf(size, e, _) => Sorted(e) && size == |e|
    case Internal(size, ptrs, keys) =>
      1 <= size && |ptrs| == size && |keys| == size - 1 && Distinct(ptrs)
      && forall c :: c in ptrs ==> c < bound
  }

  /** Every stored node has a level: leaves 0, and a stored child sits one
      level below its parent. */
  ghost predicate HeightsOk<R>(nodes: map<Ptr, Node<R>>, height: map<Ptr, nat>)
  {
    && (forall q :: q in nodes ==> q in height && (nodes[q].Leaf? <==> height[q] == 0))
    && (forall q, c :: q in nodes && nodes[q].Internal? && c in nodes[q].ptrs && c in nodes ==>
          height[c] + 1 == height[q])
  }

  /** No locator is the child of two different nodes. */
  ghost predicate ChildrenDisjoint<R>(nodes: map<Ptr, Node<R>>)
  {
    forall q1, q2 :: q1 in nodes && q2 in nodes && q1 != q2 ==> Children(nodes[q1]) !! Children(nodes[q2])
  }

  /** The store invariant: NULL_PTR names nothing, every locator in use was
      allocated before `nextFree`, and nodes, levels and children are as
      above; levels too are recorded only for allocated locators. A child
      need not be present: a merge removes a node before its
      parent erases the locator. */
  ghost predicate StoreOk<R>(nodes: map<Ptr, Node<R>>, height: map<Ptr, nat>, nextFree: Ptr)
  {
    && nextFree > NULL_PTR && NULL_PTR !in nodes
    && (forall q :: q in nodes ==> q < nextFree && NodeOk(nodes[q], nextFree))
    && (forall q :: q in height ==> q < nextFree)
    && HeightsOk(nodes, height)
    && ChildrenDisjoint(nodes)
  }

  // ---------------------------------------------------------------------
  // Subtree max (LeafNode.cpp:12-15, InternalNode.cpp:12-18)

  /** max(): a leaf's greatest key, an internal node's max of its child at
      size - 1. A missing node or an empty leaf, where the source's
      behaviour is undefined, yields DELETE_MARKER. */
  function MaxIn<R>(nodes: map<Ptr, Node<R>>, ghost height: map<Ptr, nat>, p: Ptr): Key
    requires HeightsOk(nodes, height)
    decreases if p in nodes then height[p] else 0
  {
    if p !in nodes then DELETE_MARKER
    else match nodes[p]
      case Leaf(_, e, _) => LeafMax(e)
      case Internal(size, ptrs, _) =>
        if 1 <= size <= |ptrs| && ptrs[size - 1] in nodes then MaxIn(nodes, height, ptrs[size - 1])
        else DELETE_MARKER
  }

  /** The leaf max() finally reads: the descent from p along each internal
      node's child at size - 1, stopping at a leaf or where the descent
      reaches no stored node. */
  ghost function RightmostLeaf<R>(nodes: map<Ptr, Node<R>>, height: map<Ptr, nat>, p: Ptr): Ptr
    requires HeightsOk(nodes, height)
    decreases if p in nodes then height[p] else 0
  {
    if p !in nodes then p
    else match nodes[p]
      case Leaf(_, _, _) => p
      case Internal(size, ptrs, _) =>
        if 1 <= size <= |ptrs| && ptrs[size - 1] in nodes then RightmostLeaf(nodes, height, ptrs[size - 1])
        else p
  }

  /** The max is the greatest key of the rightmost leaf reached from p: a
      key that leaf holds and, for an ordered leaf, an upper bound of all
      its keys; DELETE_MARKER when the descent reaches no leaf or an empty
      one. */
  lemma {:induction false} MaxInStored<R>(nodes: map<Ptr, Node<R>>, height: map<Ptr, nat>, p: Ptr)
    requires HeightsOk(nodes, height)
    ensures var q := RightmostLeaf(nodes, height, p);
      MaxIn(nodes, height, p) == (if q in nodes && nodes[q].Leaf? then LeafMax(nodes[q].entries) else DELETE_MARKER)
    ensures var q, m := RightmostLeaf(nodes, height, p), MaxIn(nodes, height, p);
      m != DELETE_MARKER ==> q in nodes && nodes[q].Leaf? && m in KeysOf(nodes[q].entries)
    ensures var q := RightmostLeaf(nodes, height, p);
      q in nodes && nodes[q].Leaf? && Sorted(nodes[q].entries) ==>
        forall k :: k in KeysOf(nodes[q].entries) ==> k <= MaxIn(nodes, height, p)
    decreases if p in nodes then height[p] else 0
  {
    if p in nodes {
      match nodes[p]
      case Leaf(_, e, _) =>
        if LeafMax(e) != DELETE_MARKER { assert e != []; }
      case Internal(size, ptrs, _) =>
        if 1 <= size <= |ptrs| && ptrs[size - 1] in nodes {
          assert ptrs[size - 1] in nodes[p].ptrs;
          MaxInStored(nodes, height, ptrs[size - 1]);
        }
    }
  }

  /** The max of q depends only on the nodes at q's level and below: if two
      stores agree there (and neither has extra nodes there), they agree on
      the max, whatever the level maps say about other nodes. */
  lemma {:induction false} MaxUnchanged<R>(n1: map<Ptr, Node<R>>, h1: map<Ptr, nat>,
                                           n2: map<Ptr, Node<R>>, h2: map<Ptr, nat>, q: Ptr, bound: nat)
    requires HeightsOk(n1, h1) && HeightsOk(n2, h2)
    requires forall r :: r in n1 ==> r in h2 && h2[r] == h1[r]
    requires forall r :: r in n1 && h1[r] <= bound ==> r in n2 && n2[r] == n1[r]
    requires forall r :: r in n2 && h2[r] <= bound ==> r in n1
    requires q in n1 && h1[q] <= bound
    ensures MaxIn(n1, h1, q) == MaxIn(n2, h2, q)
    decreases h1[q]
  {
    match n1[q]
    case Leaf(_, _, _) =>
    case Internal(size, ptrs, _) =>
      if 1 <= size <= |ptrs| {
        var c := ptrs[size - 1];
        assert c in n1[q].ptrs;
        assert q in n2 && n2[q] == n1[q];
        if c in n1 {
          MaxUnchanged(n1, h1, n2, h2, c, bound);
        }
      }
  }

  // ---------------------------------------------------------------------
  // LeafNode mutations on the store

  /** LeafNode::insert_key (LeafNode.cpp:19-73) on the store, with `newPtr`
      the locator a new leaf would get. Returns the store after the dumps
      and the returned locator. */
  function LeafInserted<R>(nodes: map<Ptr, Node<R>>, newPtr: Ptr, p: Ptr, key: Key, rec: R): (r: (map<Ptr, Node<R>>, Ptr))
    requires p in nodes && nodes[p].Leaf? && nodes[p].size == |nodes[p].entries|
    ensures nodes.Keys <= r.0.Keys <= nodes.Keys + {newPtr}
    ensures IsNull(r.1) && !IsNull(newPtr) ==> r.0.Keys == nodes.Keys
    ensures !IsNull(r.1) ==> r.0.Keys == nodes.Keys + {newPtr}
    ensures forall q :: q in nodes && q != p && q != newPtr ==> r.0[q] == nodes[q]
    ensures r.0[p].Leaf? && (IsNull(r.1) || (r.1 == newPtr && newPtr in r.0 && r.0[newPtr].Leaf?))
  {
    var n := nodes[p];
    if key in KeysOf(n.entries) then (nodes, NULL_PTR)
    else
      var e := InsertEntry(n.entries, key, rec);
      InsertEntryKeys(n.entries, key, rec);
      if !Overflows(n.size + 1) then (nodes[p := Leaf(n.size + 1, e, n.next)], NULL_PTR)
      else
        assert |e| >= MIN_OCCUPANCY by { InsertEntryGrows(n.entries, key, rec); }
        (nodes[newPtr := Leaf(|e| - MIN_OCCUPANCY, e[MIN_OCCUPANCY..], n.next)]
              [p := Leaf(MIN_OCCUPANCY, e[..MIN_OCCUPANCY], newPtr)], newPtr)
  }

  lemma {:induction false} InsertEntryGrows<R>(e: seq<(Key, R)>, k: Key, r: R)
    ensures |InsertEntry(e, k, r)| >= |e|
  {
    if e != [] && k > e[0].0 { InsertEntryGrows(e[1..], k, r); }
  }

  /** A key already present: nothing changes and NULL_PTR is returned. */
  lemma LeafInsertPresent<R>(nodes: map<Ptr, Node<R>>, newPtr: Ptr, p: Ptr, key: Key, rec: R)
    requires p in nodes && nodes[p].Leaf? && nodes[p].size == |nodes[p].entries|
    requires key in AsMap(nodes[p].entries)
    ensures LeafInserted(nodes, newPtr, p, key, rec) == (nodes, NULL_PTR)
  {
    AsMapKeys(nodes[p].entries);
  }

  /** A new key without overflow: the leaf's map gains key |-> rec, its
      counter grows by one, nothing else changes, NULL_PTR is returned. */
  lemma LeafInsertNoOverflow<R>(nodes: map<Ptr, Node<R>>, newPtr: Ptr, p: Ptr, key: Key, rec: R)
    requires p in nodes && nodes[p].Leaf? && nodes[p].size == |nodes[p].entries| && Sorted(nodes[p].entries)
    requires key !in AsMap(nodes[p].entries) && !Overflows(nodes[p].size + 1)
    ensures var (m, s) := LeafInserted(nodes, newPtr, p, key, rec);
      && IsNull(s) && m.Keys == nodes.Keys
      && (forall q :: q in nodes && q != p ==> m[q] == nodes[q])
      && m[p].Leaf? && m[p].next == nodes[p].next
      && m[p].size == nodes[p].size + 1 && |m[p].entries| == m[p].size && Sorted(m[p].entries)
      && AsMap(m[p].entries) == AsMap(nodes[p].entries)[key := rec]
  {
    AsMapKeys(nodes[p].entries);
    InsertEntryCorrect(nodes[p].entries, key, rec);
  }

  /** A new key with overflow: the original keeps exactly the
      MIN_OCCUPANCY smallest entries, the new leaf the rest; the two parts
      are ordered, disjoint, every kept key is below every moved key, and
      together they are the old map plus key |-> rec. The new leaf is
      spliced into the chain right after the original and returned. */
  lemma LeafInsertSplit<R>(nodes: map<Ptr, Node<R>>, newPtr: Ptr, p: Ptr, key: Key, rec: R)
    requires p in nodes && nodes[p].Leaf? && nodes[p].size == |nodes[p].entries| && Sorted(nodes[p].entries)
    requires key !in AsMap(nodes[p].entries) && Overflows(nodes[p].size + 1) && newPtr != p
    ensures var (m, s) := LeafInserted(nodes, newPtr, p, key, rec);
      var total := nodes[p].size + 1;
      && s == newPtr && m.Keys == nodes.Keys + {newPtr}
      && (forall q :: q in nodes && q != p && q != newPtr ==> m[q] == nodes[q])
      && m[p].Leaf? && m[newPtr].Leaf?
      && m[p].size == MIN_OCCUPANCY == |m[p].entries|
      && m[newPtr].size == total - MIN_OCCUPANCY == |m[newPtr].entries|
      && Sorted(m[p].entries) && Sorted(m[newPtr].entries)
      && m[p].entries + m[newPtr].entries == InsertEntry(nodes[p].entries, key, rec)
      && AllBelow(m[p].entries, m[newPtr].entries)
      && KeysOf(m[p].entries) !! KeysOf(m[newPtr].entries)
      && AsMap(m[p].entries) + AsMap(m[newPtr].entries) == AsMap(nodes[p].entries)[key := rec]
      && m[p].next == newPtr && m[newPtr].next == nodes[p].next
  {
    var e := InsertEntry(nodes[p].entries, key, rec);
    AsMapKeys(nodes[p].entries);
    InsertEntryCorrect(nodes[p].entries, key, rec);
    SplitPartition(e, MIN_OCCUPANCY);
    assert e[..MIN_OCCUPANCY] + e[MIN_OCCUPANCY..] == e;
  }

  /** LeafNode::delete_key (LeafNode.cpp:112-123) on the store. */
  function LeafDeleted<R>(nodes: map<Ptr, Node<R>>, p: Ptr, key: Key): (r: map<Ptr, Node<R>>)
    requires p in nodes && nodes[p].Leaf?
    ensures r.Keys == nodes.Keys && r[p].Leaf?
    ensures forall q :: q in nodes && q != p ==> r[q] == nodes[q]
  {
    var n := nodes[p];
    if key in KeysOf(n.entries) then nodes[p := Leaf(n.size - 1, RemoveEntry(n.entries, key), n.next)]
    else nodes
  }

  /** A present key is removed and the counter drops by one; an absent key
      changes nothing. */
  lemma LeafDeleteEffect<R>(nodes: map<Ptr, Node<R>>, p: Ptr, key: Key)
    requires p in nodes && nodes[p].Leaf? && nodes[p].size == |nodes[p].entries| && Sorted(nodes[p].entries)
    ensures var m := LeafDeleted(nodes, p, key);
      && m.Keys == nodes.Keys && (forall q :: q in nodes && q != p ==> m[q] == nodes[q])
      && m[p].Leaf? && m[p].next == nodes[p].next
      && AsMap(m[p].entries) == AsMap(nodes[p].entries) - {key}
      && Sorted(m[p].entries) && m[p].size == |m[p].entries|
      && KeysOf(m[p].entries) <= KeysOf(nodes[p].entries)
      && (key in AsMap(nodes[p].entries) ==> m[p].size == nodes[p].size - 1)
      && (key !in AsMap(nodes[p].entries) ==> m == nodes)
  {
    AsMapKeys(nodes[p].entries);
    RemoveEntryCorrect(nodes[p].entries, key);
    RemoveEntryKeys(nodes[p].entries, key);
  }

  /** LeafNode::merge_nodes (LeafNode.cpp:100-109): p absorbs s's entries
      and counter, takes over s's chain link, and s is deleted. */
  function LeafMerged<R>(nodes: map<Ptr, Node<R>>, p: Ptr, s: Ptr): map<Ptr, Node<R>>
    requires p in nodes && s in nodes && nodes[p].Leaf? && nodes[s].Leaf?
  {
    var a, b := nodes[p], nodes[s];
    (nodes - {s})[p := Leaf(a.size + b.size, InsertAll(a.entries, b.entries), b.next)]
  }

  /** The merged map is the union (self winning on a shared key); with
      disjoint keys the counter is the entry count, and with the sibling to
      the right the entries are simply concatenated. */
  lemma LeafMergeEffect<R>(nodes: map<Ptr, Node<R>>, p: Ptr, s: Ptr)
    requires p in nodes && s in nodes && p != s && nodes[p].Leaf? && nodes[s].Leaf?
    requires Sorted(nodes[p].entries) && Sorted(nodes[s].entries)
    ensures var m := LeafMerged(nodes, p, s);
      var a, b := nodes[p], nodes[s];
      && m.Keys == nodes.Keys - {s} && (forall q :: q in m && q != p ==> m[q] == nodes[q])
      && m[p].Leaf? && m[p].size == a.size + b.size && m[p].next == b.next
      && Sorted(m[p].entries)
      && AsMap(m[p].entries) == AsMap(b.entries) + AsMap(a.entries)
      && ((KeysOf(a.entries) !! KeysOf(b.entries) && a.size == |a.entries| && b.size == |b.entries|)
            ==> m[p].size == |m[p].entries|)
      && (AllBelow(a.entries, b.entries) ==> m[p].entries == a.entries + b.entries)
  {
    InsertAllCorrect(nodes[p].entries, nodes[s].entries);
    if AllBelow(nodes[p].entries, nodes[s].entries) {
      InsertAllRightSibling(nodes[p].entries, nodes[s].entries);
    }
  }

  /** LeafNode::redistributeData (LeafNode.cpp:75-97): from's greatest entry
      (fromIndex < toIndex) or least entry (otherwise) is inserted into `to`
      and then deleted from `from`. */
  function LeafRedistributed<R>(nodes: map<Ptr, Node<R>>, newPtr: Ptr, from: Ptr, to: Ptr, fromIndex: int, toIndex: int): map<Ptr, Node<R>>
    requires from in nodes && to in nodes && from != to && newPtr !in nodes
    requires nodes[from].Leaf? && nodes[to].Leaf? && nodes[from].entries != []
    requires nodes[to].size == |nodes[to].entries|
  {
    var e := nodes[from].entries;
    var x := if fromIndex < toIndex then e[|e| - 1] else e[0];
    var m := LeafInserted(nodes, newPtr, to, x.0, x.1).0;
    assert from in m && m[from] == nodes[from];
    LeafDeleted(m, from, x.0)
  }

  /** The redistribution is the insert into `to` followed by the delete
      from `from`, of from's extreme entry x. */
  lemma LeafRedistributedSteps<R>(nodes: map<Ptr, Node<R>>, newPtr: Ptr, from: Ptr, to: Ptr, fromIndex: int, toIndex: int,
                                  x: (Key, R), m: map<Ptr, Node<R>>)
    requires from in nodes && to in nodes && from != to && newPtr !in nodes
    requires nodes[from].Leaf? && nodes[to].Leaf? && nodes[from].entries != []
    requires nodes[to].size == |nodes[to].entries|
    requires var e := nodes[from].entries; x == if fromIndex < toIndex then e[|e| - 1] else e[0]
    requires m == LeafInserted(nodes, newPtr, to, x.0, x.1).0 && from in m && m[from].Leaf?
    ensures LeafRedistributed(nodes, newPtr, from, to, fromIndex, toIndex) == LeafDeleted(m, from, x.0)
  {
  }

  /** Between disjoint leaves, when `to` has room, exactly one entry moves:
      from's greatest (left case) or least (right case); from shrinks and
      `to` grows by one, and together they hold the same map as before. */
  lemma LeafRedistributeEffect<R>(nodes: map<Ptr, Node<R>>, newPtr: Ptr, from: Ptr, to: Ptr, fromIndex: int, toIndex: int)
    requires from in nodes && to in nodes && from != to && newPtr !in nodes
    requires nodes[from].Leaf? && nodes[to].Leaf? && nodes[from].entries != []
    requires nodes[from].size == |nodes[from].entries| && nodes[to].size == |nodes[to].entries|
    requires Sorted(nodes[from].entries) && Sorted(nodes[to].entries)
    requires KeysOf(nodes[from].entries) !! KeysOf(nodes[to].entries) && !Overflows(nodes[to].size + 1)
    ensures var m := LeafRedistributed(nodes, newPtr, from, to, fromIndex, toIndex);
      var f, t := nodes[from].entries, nodes[to].entries;
      var x := if fromIndex < toIndex then f[|f| - 1] else f[0];
      && m.Keys == nodes.Keys && (forall q :: q in nodes && q != from && q != to ==> m[q] == nodes[q])
      && m[from].Leaf? && m[to].Leaf?
      && m[from].size == nodes[from].size - 1 && m[to].size == nodes[to].size + 1
      && m[from].next == nodes[from].next && m[to].next == nodes[to].next
      && (fromIndex < toIndex ==> forall k :: k in KeysOf(f) ==> k <= x.0)
      && (fromIndex >= toIndex ==> forall k :: k in KeysOf(f) ==> x.0 <= k)
      && AsMap(m[from].entries) == AsMap(f) - {x.0}
      && AsMap(m[to].entries) == AsMap(t)[x.0 := x.1]
      && AsMap(m[from].entries) + AsMap(m[to].entries) == AsMap(f) + AsMap(t)
  {
    var f, t := nodes[from].entries, nodes[to].entries;
    var x := if fromIndex < toIndex then f[|f| - 1] else f[0];
    ExtremeEntry(f, fromIndex, toIndex);
    AsMapKeys(t);
    LeafInsertNoOverflow(nodes, newPtr, to, x.0, x.1);
    var m1 := LeafInserted(nodes, newPtr, to, x.0, x.1).0;
    LeafDeleteEffect(m1, from, x.0);
    MapMove(AsMap(f), AsMap(t), x.0, x.1);
  }

  /** The entry redistribution moves: from's last (left case) or first
      (right case), which is its greatest or least key. */
  lemma ExtremeEntry<R>(f: seq<(Key, R)>, fromIndex: int, toIndex: int)
    requires Sorted(f) && f != []
    ensures var x := if fromIndex < toIndex then f[|f| - 1] else f[0];
      && x.0 in KeysOf(f) && x.0 in AsMap(f) && AsMap(f)[x.0] == x.1
      && (fromIndex < toIndex ==> forall k :: k in KeysOf(f) ==> k <= x.0)
      && (fromIndex >= toIndex ==> forall k :: k in KeysOf(f) ==> x.0 <= k)
  {
    var x := if fromIndex < toIndex then f[|f| - 1] else f[0];
    forall k | k in KeysOf(f)
      ensures fromIndex < toIndex ==> k <= x.0
      ensures fromIndex >= toIndex ==> x.0 <= k
    {
      KeysOfIndex(f, k);
    }
    if fromIndex < toIndex { AsMapValue(f, |f| - 1); } else { AsMapValue(f, 0); }
    AsMapKeys(f);
  }

  /** Moving one binding from one map to another keeps their union. */
  lemma MapMove<R>(a: map<Key, R>, b: map<Key, R>, k: Key, v: R)
    requires k in a && a[k] == v && k !in b
    ensures (a - {k}) + b[k := v] == a + b
  {
  }

  lemma {:induction false} AsMapValue<R>(e: seq<(Key, R)>, i: int)
    requires Sorted(e) && 0 <= i < |e|
    ensures e[i].0 in AsMap(e) && AsMap(e)[e[i].0] == e[i].1
  {
    if i > 0 {
      SortedTail(e);
      AsMapValue(e[1..], i - 1);
    }
  }

  // ---------------------------------------------------------------------
  // Preconditions along a search path

  /** The nodes an insert of `key` loads from p down are present, one level
      apart. */
  ghost predicate InsertPathOk<R>(nodes: map<Ptr, Node<R>>, height: map<Ptr, nat>, p: Ptr, key: Key)
    decreases if p in height then height[p] else 0
  {
    && p in nodes && p in height
    && (nodes[p].Internal? ==>
          var n := nodes[p];
          && 1 <= n.size && |n.ptrs| == n.size && |n.keys| == n.size - 1
          && var c := n.ptrs[Route(n.keys, n.size, key)];
             c in nodes && c in height && height[c] < height[p] && InsertPathOk(nodes, height, c, key))
  }

  /** Two stored leaves hold disjoint keys. */
  ghost predicate PairDisjoint<R>(nodes: map<Ptr, Node<R>>, a: Ptr, b: Ptr)
  {
    (a in nodes && b in nodes && nodes[a].Leaf? && nodes[b].Leaf?) ==>
      KeysOf(nodes[a].entries) !! KeysOf(nodes[b].entries)
  }

  /** Leaf children at adjacent positions hold disjoint keys. */
  ghost predicate LeafSiblingsDisjoint<R>(nodes: map<Ptr, Node<R>>, n: Node<R>)
    requires n.Internal?
  {
    forall i :: 0 <= i < |n.ptrs| - 1 ==> PairDisjoint(nodes, n.ptrs[i], n.ptrs[i + 1])
  }

  /** A delete of `key` finds, at every internal node on its path, at least
      two children, all present, with adjacent leaf children disjoint. */
  ghost predicate DeletePathOk<R>(nodes: map<Ptr, Node<R>>, height: map<Ptr, nat>, p: Ptr, key: Key)
    decreases if p in height then height[p] else 0
  {
    && p in nodes && p in height
    && (nodes[p].Internal? ==>
          var n := nodes[p];
          && 2 <= n.size && |n.ptrs| == n.size && |n.keys| == n.size - 1
          && (forall c :: c in n.ptrs ==> c in nodes && c in height && height[c] < height[p])
          && LeafSiblingsDisjoint(nodes, n)
          && DeletePathOk(nodes, height, n.ptrs[Route(n.keys, n.size, key)], key))
  }

  // ---------------------------------------------------------------------
  // Store edits keep the invariant

  lemma NodeOkMono<R>(n: Node<R>, b1: Ptr, b2: Ptr)
    requires NodeOk(n, b1) && b1 <= b2
    ensures NodeOk(n, b2)
  {
  }

  /** LeafNode::insert_key keeps the store well-formed; a split leaf gets
      the next free locator and level 0. */
  lemma LeafInsertedOk<R>(nodes: map<Ptr, Node<R>>, height: map<Ptr, nat>, nf: Ptr, p: Ptr, key: Key, rec: R)
    requires StoreOk(nodes, height, nf) && p in nodes && nodes[p].Leaf?
    ensures IsNull(LeafInserted(nodes, nf, p, key, rec).1) ==> StoreOk(LeafInserted(nodes, nf, p, key, rec).0, height, nf)
    ensures !IsNull(LeafInserted(nodes, nf, p, key, rec).1) ==>
      LeafInserted(nodes, nf, p, key, rec).1 == nf && StoreOk(LeafInserted(nodes, nf, p, key, rec).0, height[nf := 0], nf + 1)
  {
    var n := nodes[p];
    AsMapKeys(n.entries);
    if key in KeysOf(n.entries) {
      return;
    }
    var e := InsertEntry(n.entries, key, rec);
    if !Overflows(n.size + 1) {
      LeafInsertNoOverflow(nodes, nf, p, key, rec);
      ReplaceLeafOk(nodes, height, nf, p, LeafInserted(nodes, nf, p, key, rec).0[p]);
    } else {
      LeafInsertSplit(nodes, nf, p, key, rec);
      var m := LeafInserted(nodes, nf, p, key, rec).0;
      AddLeafOk(nodes, height, nf, m[nf]);
      assert m == nodes[nf := m[nf]][p := m[p]];
      ReplaceLeafOk(nodes[nf := m[nf]], height[nf := 0], nf + 1, p, m[p]);
    }
  }

  /** After LeafNode::insert_key the next free locator is still nobody's
      child: the leaves written have none, every other node is unchanged. */
  lemma LeafInsertedFresh<R>(nodes: map<Ptr, Node<R>>, height: map<Ptr, nat>, nf: Ptr, p: Ptr, key: Key, rec: R)
    requires StoreOk(nodes, height, nf) && p in nodes && nodes[p].Leaf?
    ensures var m := LeafInserted(nodes, nf, p, key, rec).0;
      forall q :: q in m ==> nf !in Children(m[q])
  {
    var m := LeafInserted(nodes, nf, p, key, rec).0;
    forall q | q in m ensures nf !in Children(m[q]) {
      if q != p && q != nf {
        assert m[q] == nodes[q] && NodeOk(nodes[q], nf);
      }
    }
  }

  /** LeafNode::merge_nodes of two leaves with disjoint keys keeps the
      store well-formed. */
  lemma LeafMergedOk<R>(nodes: map<Ptr, Node<R>>, height: map<Ptr, nat>, nf: Ptr, p: Ptr, s: Ptr)
    requires StoreOk(nodes, height, nf) && p in nodes && s in nodes && p != s && nodes[p].Leaf? && nodes[s].Leaf?
    requires KeysOf(nodes[p].entries) !! KeysOf(nodes[s].entries)
    ensures StoreOk(LeafMerged(nodes, p, s), height, nf)
  {
    var a, b := nodes[p], nodes[s];
    var x := Leaf(a.size + b.size, InsertAll(a.entries, b.entries), b.next);
    assert NodeOk(a, nf) && NodeOk(b, nf);
    LeafMergeEffect(nodes, p, s);
    RemoveOk(nodes, height, nf, s);
    ReplaceLeafOk(nodes - {s}, height, nf, p, x);
  }

  lemma BoundGrows<R>(nodes: map<Ptr, Node<R>>, height: map<Ptr, nat>, nf: Ptr, nf2: Ptr)
    requires StoreOk(nodes, height, nf) && nf <= nf2
    ensures StoreOk(nodes, height, nf2)
  {
    forall q | q in nodes ensures NodeOk(nodes[q], nf2) { NodeOkMono(nodes[q], nf, nf2); }
  }

  lemma RemoveOk<R>(nodes: map<Ptr, Node<R>>, height: map<Ptr, nat>, nf: Ptr, s: Ptr)
    requires StoreOk(nodes, height, nf)
    ensures StoreOk(nodes - {s}, height, nf)
  {
    var m := nodes - {s};
    forall q1, q2 | q1 in m && q2 in m && q1 != q2 ensures Children(m[q1]) !! Children(m[q2]) {
      assert m[q1] == nodes[q1] && m[q2] == nodes[q2];
    }
  }

  lemma ReplaceLeafOk<R>(nodes: map<Ptr, Node<R>>, height: map<Ptr, nat>, nf: Ptr, p: Ptr, x: Node<R>)
    requires StoreOk(nodes, height, nf) && p in nodes && nodes[p].Leaf? && x.Leaf? && NodeOk(x, nf)
    ensures StoreOk(nodes[p := x], height, nf)
  {
    var m := nodes[p := x];
    forall q1, q2 | q1 in m && q2 in m && q1 != q2 ensures Children(m[q1]) !! Children(m[q2]) {
      if q1 != p && q2 != p { assert m[q1] == nodes[q1] && m[q2] == nodes[q2]; }
    }
  }

  lemma AddLeafOk<R>(nodes: map<Ptr, Node<R>>, height: map<Ptr, nat>, nf: Ptr, x: Node<R>)
    requires StoreOk(nodes, height, nf) && x.Leaf? && NodeOk(x, nf + 1)
    ensures StoreOk(nodes[nf := x], height[nf := 0], nf + 1)
  {
    BoundGrows(nodes, height, nf, nf + 1);
    var m := nodes[nf := x];
    forall q1, q2 | q1 in m && q2 in m && q1 != q2 ensures Children(m[q1]) !! Children(m[q2]) {
      if q1 != nf && q2 != nf { assert m[q1] == nodes[q1] && m[q2] == nodes[q2]; }
    }
    forall q, c | q in m && m[q].Internal? && c in m[q].ptrs && c in m
      ensures height[nf := 0][c] + 1 == height[nf := 0][q]
    {
      assert q != nf && m[q] == nodes[q];
      assert c < nf;
    }
  }

  /** Replacing an internal node by one whose children are among the old
      ones plus a locator `s` that is stored one level below and nobody's
      child yet. */
  lemma ReplaceInternalOk<R>(nodes: map<Ptr, Node<R>>, height: map<Ptr, nat>, nf: Ptr, p: Ptr, x: Node<R>, s: Ptr)
    requires StoreOk(nodes, height, nf) && p in nodes && nodes[p].Internal? && x.Internal? && NodeOk(x, nf)
    requires Children(x) <= Children(nodes[p]) + {s}
    requires s in Children(x) - Children(nodes[p]) ==> s in nodes && height[s] + 1 == height[p] && forall q :: q in nodes ==> s !in Children(nodes[q])
    ensures StoreOk(nodes[p := x], height, nf)
  {
    var m := nodes[p := x];
    forall q1, q2 | q1 in m && q2 in m && q1 != q2 ensures Children(m[q1]) !! Children(m[q2]) {
      if q1 != p && q2 != p { assert m[q1] == nodes[q1] && m[q2] == nodes[q2]; }
    }
    forall q, c | q in m && m[q].Internal? && c in m[q].ptrs && c in m
      ensures height[c] + 1 == height[q]
    {
      if q == p {
        assert c in Children(x);
      } else {
        assert m[q] == nodes[q];
        if c == p { assert height[c] + 1 == height[q]; }
      }
    }
  }

  /** An internal node split into l (kept at p) and r (at the newPtr locator
      nf), whose children partition a subset of p's. */
  lemma SplitOk<R>(nodes: map<Ptr, Node<R>>, height: map<Ptr, nat>, nf: Ptr, p: Ptr, l: Node<R>, r: Node<R>)
    requires StoreOk(nodes, height, nf) && p in nodes && nodes[p].Internal?
    requires l.Internal? && r.Internal? && NodeOk(l, nf) && NodeOk(r, nf)
    requires Children(l) + Children(r) <= Children(nodes[p]) && Children(l) !! Children(r)
    ensures StoreOk(nodes[nf := r][p := l], height[nf := height[p]], nf + 1)
  {
    BoundGrows(nodes, height, nf, nf + 1);
    NodeOkMono(l, nf, nf + 1);
    NodeOkMono(r, nf, nf + 1);
    assert p != nf;
    SplitDisjoint(nodes, nf, p, l, r);
    SplitHeights(nodes, height, nf, p, l, r);
  }

  lemma SplitDisjoint<R>(nodes: map<Ptr, Node<R>>, nf: Ptr, p: Ptr, l: Node<R>, r: Node<R>)
    requires ChildrenDisjoint(nodes) && p in nodes && nf !in nodes
    requires Children(l) + Children(r) <= Children(nodes[p]) && Children(l) !! Children(r)
    ensures ChildrenDisjoint(nodes[nf := r][p := l])
  {
    var m := nodes[nf := r][p := l];
    forall q1, q2 | q1 in m && q2 in m && q1 != q2 ensures Children(m[q1]) !! Children(m[q2]) {
      if q1 != p && q2 != p && q1 != nf && q2 != nf { assert m[q1] == nodes[q1] && m[q2] == nodes[q2]; }
    }
  }

  lemma SplitHeights<R>(nodes: map<Ptr, Node<R>>, height: map<Ptr, nat>, nf: Ptr, p: Ptr, l: Node<R>, r: Node<R>)
    requires StoreOk(nodes, height, nf) && p in nodes && nodes[p].Internal?
    requires l.Internal? && r.Internal? && Children(l) + Children(r) <= Children(nodes[p])
    ensures HeightsOk(nodes[nf := r][p := l], height[nf := height[p]])
  {
    var h := height[nf := height[p]];
    var m := nodes[nf := r][p := l];
    forall q, c | q in m && m[q].Internal? && c in m[q].ptrs && c in m
      ensures h[c] + 1 == h[q]
    {
      assert c in Children(m[q]);
      if q == p || q == nf {
        assert c in Children(nodes[p]);
        assert c < nf;
      } else {
        assert m[q] == nodes[q];
        assert c < nf;
      }
    }
  }

  /** Two same-level internal nodes exchanging children among themselves. */
  lemma RedistOk<R>(nodes: map<Ptr, Node<R>>, height: map<Ptr, nat>, nf: Ptr, a: Ptr, b: Ptr, a': Node<R>, b': Node<R>)
    requires StoreOk(nodes, height, nf) && a in nodes && b in nodes && a != b
    requires nodes[a].Internal? && nodes[b].Internal? && height[a] == height[b]
    requires a'.Internal? && b'.Internal? && NodeOk(a', nf) && NodeOk(b', nf)
    requires Children(a') + Children(b') <= Children(nodes[a]) + Children(nodes[b]) && Children(a') !! Children(b')
    ensures StoreOk(nodes[a := a'][b := b'], height, nf)
  {
    RedistDisjoint(nodes, a, b, a', b');
    RedistHeights(nodes, height, a, b, a', b');
  }

  lemma RedistDisjoint<R>(nodes: map<Ptr, Node<R>>, a: Ptr, b: Ptr, a': Node<R>, b': Node<R>)
    requires ChildrenDisjoint(nodes) && a in nodes && b in nodes && a != b
    requires Children(a') + Children(b') <= Children(nodes[a]) + Children(nodes[b]) && Children(a') !! Children(b')
    ensures ChildrenDisjoint(nodes[a := a'][b := b'])
  {
    var m := nodes[a := a'][b := b'];
    forall q1, q2 | q1 in m && q2 in m && q1 != q2 ensures Children(m[q1]) !! Children(m[q2]) {
      if q1 != a && q2 != a && q1 != b && q2 != b { assert m[q1] == nodes[q1] && m[q2] == nodes[q2]; }
    }
  }

  lemma RedistHeights<R>(nodes: map<Ptr, Node<R>>, height: map<Ptr, nat>, a: Ptr, b: Ptr, a': Node<R>, b': Node<R>)
    requires HeightsOk(nodes, height) && a in nodes && b in nodes && a != b
    requires nodes[a].Internal? && nodes[b].Internal? && height[a] == height[b]
    requires a'.Internal? && b'.Internal?
    requires Children(a') + Children(b') <= Children(nodes[a]) + Children(nodes[b])
    ensures HeightsOk(nodes[a := a'][b := b'], height)
  {
    var m := nodes[a := a'][b := b'];
    forall q, c | q in m && m[q].Internal? && c in m[q].ptrs && c in m
      ensures height[c] + 1 == height[q]
    {
      assert c in Children(m[q]);
      if q == a || q == b {
        assert c in Children(nodes[a]) || c in Children(nodes[b]);
      } else {
        assert m[q] == nodes[q];
      }
    }
  }

  /** An internal node absorbing a same-level sibling's children, the
      sibling being removed. */
  lemma MergeOk<R>(nodes: map<Ptr, Node<R>>, height: map<Ptr, nat>, nf: Ptr, p: Ptr, s: Ptr, x: Node<R>)
    requires StoreOk(nodes, height, nf) && p in nodes && s in nodes && p != s
    requires nodes[p].Internal? && nodes[s].Internal? && height[p] == height[s]
    requires x.Internal? && NodeOk(x, nf) && Children(x) <= Children(nodes[p]) + Children(nodes[s])
    ensures StoreOk((nodes - {s})[p := x], height, nf)
  {
    var m := (nodes - {s})[p := x];
    forall q1, q2 | q1 in m && q2 in m && q1 != q2 ensures Children(m[q1]) !! Children(m[q2]) {
      if q1 != p && q2 != p { assert m[q1] == nodes[q1] && m[q2] == nodes[q2]; }
    }
    forall q, c | q in m && m[q].Internal? && c in m[q].ptrs && c in m
      ensures height[c] + 1 == height[q]
    {
      assert c in Children(m[q]);
      if q == p {
        assert c in Children(nodes[p]) || c in Children(nodes[s]);
      } else {
        assert m[q] == nodes[q];
      }
    }
  }

  // ---------------------------------------------------------------------
  // Locator sequences

  lemma DistinctConcat(a: seq<Ptr>, b: seq<Ptr>)
    requires Distinct(a) && Distinct(b) && forall x :: x in a ==> x !in b
    ensures Distinct(a + b)
  {
    var s := a + b;
    forall i, j | 0 <= i < j < |s| ensures s[i] != s[j] {
      if j < |a| {
        assert s[i] == a[i] && s[j] == a[j];
        assert a[i] != a[j];
      } else if i >= |a| {
        assert s[i] == b[i - |a|] && s[j] == b[j - |a|];
        assert b[i - |a|] != b[j - |a|];
      } else {
        assert s[i] == a[i] && s[j] == b[j - |a|];
        assert a[i] in a && b[j - |a|] in b;
      }
    }
  }

  lemma DistinctSlice(s: seq<Ptr>, i: int, j: int)
    requires Distinct(s) && 0 <= i <= j <= |s|
    ensures Distinct(s[i..j])
  {
    var t := s[i..j];
    forall a, b | 0 <= a < b < |t| ensures t[a] != t[b] { assert t[a] == s[i + a] && t[b] == s[i + b]; }
  }

  /** The parts on either side of a cut of a distinct sequence share nothing. */
  lemma DistinctCut(s: seq<Ptr>, i: int)
    requires Distinct(s) && 0 <= i <= |s|
    ensures forall x :: x in s[..i] ==> x !in s[i..]
    ensures Distinct(s[..i]) && Distinct(s[i..])
    ensures forall x :: x in s <==> x in s[..i] || x in s[i..]
  {
    DistinctSlice(s, 0, i);
    DistinctSlice(s, i, |s|);
    forall c | c in s[..i] ensures c !in s[i..] {
      var a :| 0 <= a < i && s[..i][a] == c;
      forall b | 0 <= b < |s| - i ensures s[i..][b] != c {
        assert s[a] == c && s[i + b] == s[i..][b];
      }
    }
    assert s == s[..i] + s[i..];
  }

  // ---------------------------------------------------------------------
  // Shapes of the rewritten internal nodes

  /** Absorbing a child split adds exactly the new sibling to the children. */
  lemma AbsorbNodeOk<R>(n: Node<R>, posn: int, s: Ptr, cm: Key, sm: Key, nf: Ptr)
    requires n.Internal? && NodeOk(n, nf) && 0 <= posn < n.size && s !in n.ptrs && s < nf
    ensures var g := AbsorbChildSplit(n, posn, s, cm, sm);
      NodeOk(g, nf) && Children(g) == Children(n) + {s}
  {
    var g := AbsorbChildSplit(n, posn, s, cm, sm);
    var a, b := n.ptrs[..posn + 1], n.ptrs[posn + 1..];
    assert g.ptrs == a + [s] + b;
    DistinctCut(n.ptrs, posn + 1);
    DistinctConcat(a, [s]);
    DistinctConcat(a + [s], b);
  }

  /** The persisted halves of an own split are well-formed and split the
      children between them. */
  lemma SplitNodeOk<R>(g: Node<R>, nf: Ptr)
    requires g.Internal? && NodeOk(g, nf) && MIN_OCCUPANCY < g.size
    ensures var l, r := Persist(SplitLeftInMemory(g, MIN_OCCUPANCY)), SplitRight(g, MIN_OCCUPANCY);
      && l.Internal? && r.Internal? && NodeOk(l, nf) && NodeOk(r, nf)
      && Children(l) + Children(r) == Children(g) && Children(l) !! Children(r)
  {
    var l, r := Persist(SplitLeftInMemory(g, MIN_OCCUPANCY)), SplitRight(g, MIN_OCCUPANCY);
    assert l.ptrs == g.ptrs[..MIN_OCCUPANCY];
    assert r.ptrs == g.ptrs[MIN_OCCUPANCY..];
    DistinctCut(g.ptrs, MIN_OCCUPANCY);
  }

  /** Redistribution between internal nodes with disjoint children moves one
      child across and keeps both well-formed. */
  lemma RedistNodeOk<R>(from: Node<R>, to: Node<R>, fromIndex: int, toIndex: int, nf: Ptr)
    requires from.Internal? && to.Internal? && NodeOk(from, nf) && NodeOk(to, nf) && from.size >= 2
    requires Children(from) !! Children(to)
    ensures var (f, t) := RedistributeInternal(from, to, fromIndex, toIndex);
      && f.Internal? && t.Internal? && NodeOk(f, nf) && NodeOk(t, nf)
      && Children(f) + Children(t) == Children(from) + Children(to) && Children(f) !! Children(t)
  {
    var n := |from.ptrs|;
    if fromIndex < toIndex {
      DistinctCut(from.ptrs, n - 1);
      var x := from.ptrs[n - 1];
      assert from.ptrs[n - 1..] == [x];
      assert x in Children(from);
      DistinctConcat([x], to.ptrs);
    } else {
      DistinctCut(from.ptrs, 1);
      var x := from.ptrs[0];
      assert from.ptrs[..1] == [x];
      assert x in Children(from);
      DistinctConcat(to.ptrs, [x]);
    }
  }

  /** Merging internal nodes with disjoint children concatenates them. */
  lemma MergeNodeOk<R>(self: Node<R>, sib: Node<R>, lastMax: Key, nf: Ptr)
    requires self.Internal? && sib.Internal? && NodeOk(self, nf) && NodeOk(sib, nf)
    requires Children(self) !! Children(sib)
    ensures var m := MergeInternal(self, sib, lastMax);
      && m.Internal? && NodeOk(m, nf) && m.size == self.size + sib.size
      && m.ptrs == self.ptrs + sib.ptrs && Children(m) == Children(self) + Children(sib)
  {
    assert self.ptrs[|self.ptrs| - 1] in Children(self);
    assert sib.ptrs[0] in Children(sib);
    forall x | x in self.ptrs ensures x !in sib.ptrs {
      assert x in Children(self);
      assert x !in Children(sib);
    }
    DistinctConcat(self.ptrs, sib.ptrs);
  }

  /** Erasing one child (and one key) after a merge. */
  lemma EraseNodeOk<R>(n: Node<R>, i: int, keys: seq<Key>, nf: Ptr)
    requires n.Internal? && NodeOk(n, nf) && 0 <= i < n.size && n.size >= 2 && |keys| == n.size - 2
    ensures var x: Node<R> := Internal(n.size - 1, n.ptrs[..i] + n.ptrs[i + 1..], keys);
      NodeOk(x, nf) && Children(x) <= Children(n)
  {
    DistinctCut(n.ptrs, i);
    DistinctCut(n.ptrs[i..], 1);
    assert n.ptrs[i..][1..] == n.ptrs[i + 1..];
    DistinctConcat(n.ptrs[..i], n.ptrs[i + 1..]);
  }

  // ---------------------------------------------------------------------
  // What a recursive insert or delete at p may change

  ghost predicate HeightsGrow(h1: map<Ptr, nat>, h2: map<Ptr, nat>)
  {
    forall q :: q in h1 ==> q in h2 && h2[q] == h1[q]
  }

  /** An insert at p: nothing is removed; nodes other than p at p's level or
      above are untouched; new nodes were allocated during the call, at p's
      level or below; a returned split node is new, at p's level and nobody's
      child yet. */
  ghost predicate InsertFrame<R>(n1: map<Ptr, Node<R>>, h1: map<Ptr, nat>, nf1: Ptr,
                                 n2: map<Ptr, Node<R>>, h2: map<Ptr, nat>, nf2: Ptr, p: Ptr, split: Ptr)
  {
    && p in h1 && nf1 <= nf2 && n1.Keys <= n2.Keys && HeightsGrow(h1, h2)
    && (forall q :: q in n1 && q in h1 && q != p && h1[q] >= h1[p] ==> n2[q] == n1[q])
    && (forall q :: q in n2 && q !in n1 ==> nf1 <= q && q in h2 && h2[q] <= h1[p])
    && (!IsNull(split) ==>
          && split in n2 && split !in n1 && split in h2 && h2[split] == h1[p]
          && forall q :: q in n2 ==> split !in Children(n2[q]))
  }

  /** A delete at p: p and every node at p's level or above stay; those
      other than p are untouched; new nodes were allocated during the call,
      below p's level. */
  ghost predicate DeleteFrame<R>(n1: map<Ptr, Node<R>>, h1: map<Ptr, nat>, nf1: Ptr,
                                 n2: map<Ptr, Node<R>>, h2: map<Ptr, nat>, nf2: Ptr, p: Ptr)
  {
    && p in h1 && nf1 <= nf2 && HeightsGrow(h1, h2)
    && (forall q :: q in n1 && q in h1 && h1[q] >= h1[p] ==> q in n2)
    && (forall q :: q in n1 && q in h1 && q != p && h1[q] >= h1[p] ==> n2[q] == n1[q])
    && (forall q :: q in n2 && q !in n1 ==> nf1 <= q && q in h2 && h2[q] < h1[p])
  }

  /** Every subtree rooted below level k has the same max in both stores. */
  ghost predicate MaxesKept<R>(n1: map<Ptr, Node<R>>, h1: map<Ptr, nat>, n2: map<Ptr, Node<R>>, h2: map<Ptr, nat>, k: nat)
  {
    && HeightsOk(n1, h1) && HeightsOk(n2, h2)
    && forall q :: q in n1 && q in h1 && h1[q] < k ==> MaxIn(n2, h2, q) == MaxIn(n1, h1, q)
  }

  /** Splitting an internal node g about to be dumped at p: the store with
      the new right node at the next free locator and the persisted left
      part at p is well-formed, the new locator is nobody's child, and the
      levels below p are untouched (so maxes there are unchanged). */
  lemma SplitStep<R>(nodes: map<Ptr, Node<R>>, height: map<Ptr, nat>, nf: Ptr, p: Ptr, g: Node<R>)
    requires StoreOk(nodes, height, nf) && StoreOk(nodes[p := g], height, nf)
    requires p in nodes && nodes[p].Internal? && g.Internal? && MIN_OCCUPANCY < g.size
    ensures var l, r := Persist(SplitLeftInMemory(g, MIN_OCCUPANCY)), SplitRight(g, MIN_OCCUPANCY);
      var after := nodes[nf := r][p := l];
      var heightAfter := height[nf := height[p]];
      && StoreOk(after, heightAfter, nf + 1)
      && (forall q :: q in after ==> nf !in Children(after[q]))
      && MaxesKept(nodes, height, after, heightAfter, height[p])
  {
    var l, r := Persist(SplitLeftInMemory(g, MIN_OCCUPANCY)), SplitRight(g, MIN_OCCUPANCY);
    var after := nodes[nf := r][p := l];
    assert NodeOk(g, nf);
    SplitNodeOk(g, nf);
    SplitOk(nodes[p := g], height, nf, p, l, r);
    assert nodes[p := g][nf := r][p := l] == after;
    SplitFresh(nodes, nf, p, l, r);
    SplitMaxesKept(nodes, height, nf, p, l, r);
  }

  /** SplitStep stated on the maps the split writes. */
  lemma SplitStepTo<R>(nodes: map<Ptr, Node<R>>, height: map<Ptr, nat>, nf: Ptr, p: Ptr, g: Node<R>,
                       after: map<Ptr, Node<R>>, heightAfter: map<Ptr, nat>)
    requires StoreOk(nodes, height, nf) && StoreOk(nodes[p := g], height, nf)
    requires p in nodes && nodes[p].Internal? && g.Internal? && MIN_OCCUPANCY < g.size
    requires after == nodes[nf := SplitRight(g, MIN_OCCUPANCY)][p := Persist(SplitLeftInMemory(g, MIN_OCCUPANCY))]
    requires heightAfter == height[nf := height[p]]
    ensures StoreOk(after, heightAfter, nf + 1)
    ensures forall q :: q in after ==> nf !in Children(after[q])
    ensures MaxesKept(nodes, height, after, heightAfter, height[p])
    ensures after.Keys == nodes.Keys + {nf}
    ensures forall q :: q in nodes && q != p ==> q in after && after[q] == nodes[q]
  {
    SplitStep(nodes, height, nf, p, g);
    AddReplaceFrame(nodes, nf, p, SplitRight(g, MIN_OCCUPANCY), Persist(SplitLeftInMemory(g, MIN_OCCUPANCY)));
  }

  /** The new locator is nobody's child: every child was allocated before. */
  lemma SplitFresh<R>(nodes: map<Ptr, Node<R>>, nf: Ptr, p: Ptr, l: Node<R>, r: Node<R>)
    requires forall q :: q in nodes ==> NodeOk(nodes[q], nf)
    requires NodeOk(l, nf) && NodeOk(r, nf + 1) && r.Internal? && nf !in r.ptrs
    ensures var after := nodes[nf := r][p := l];
      forall q :: q in after ==> nf !in Children(after[q])
  {
  }

  /** Adding a node at p's level and rewriting p leave every lower max. */
  lemma SplitMaxesKept<R>(nodes: map<Ptr, Node<R>>, height: map<Ptr, nat>, nf: Ptr, p: Ptr, l: Node<R>, r: Node<R>)
    requires HeightsOk(nodes, height) && p in nodes && nf !in nodes
    requires HeightsOk(nodes[nf := r][p := l], height[nf := height[p]])
    ensures MaxesKept(nodes, height, nodes[nf := r][p := l], height[nf := height[p]], height[p])
  {
    var after, heightAfter := nodes[nf := r][p := l], height[nf := height[p]];
    forall q | q in nodes && q in height && height[q] < height[p]
      ensures MaxIn(after, heightAfter, q) == MaxIn(nodes, height, q)
    {
      MaxUnchanged(nodes, height, after, heightAfter, q, height[p] - 1);
    }
  }

  /** Adding a node at a fresh locator nf and replacing p keeps every
      other node. */
  lemma AddReplaceFrame<R>(nodes: map<Ptr, Node<R>>, nf: Ptr, p: Ptr, r: Node<R>, l: Node<R>)
    requires p in nodes && nf !in nodes
    ensures var after := nodes[nf := r][p := l];
      && after.Keys == nodes.Keys + {nf}
      && (forall q :: q in nodes && q != p ==> q in after && after[q] == nodes[q])
  {
  }

  /** An insert at p is an insert at its child c followed by an update of
      p (and possibly a new node at p's level): the frame composes. */
  lemma InsertFrameCompose<R>(n0: map<Ptr, Node<R>>, h0: map<Ptr, nat>, nf0: Ptr,
                              n1: map<Ptr, Node<R>>, h1: map<Ptr, nat>, nf1: Ptr,
                              n2: map<Ptr, Node<R>>, h2: map<Ptr, nat>, nf2: Ptr,
                              p: Ptr, c: Ptr, s: Ptr, split: Ptr)
    requires InsertFrame(n0, h0, nf0, n1, h1, nf1, c, s)
    requires p in n0 && p in h0 && c in h0 && h0[c] + 1 == h0[p]
    requires nf1 <= nf2 && HeightsGrow(h1, h2) && n1.Keys <= n2.Keys
    requires forall q :: q in n1 && q != p ==> q in n2 && n2[q] == n1[q]
    requires IsNull(split) ==> n2.Keys == n1.Keys
    requires !IsNull(split) ==>
      && n2.Keys == n1.Keys + {split} && split !in n1 && nf1 <= split
      && split in h2 && h2[split] == h0[p] && forall q :: q in n2 ==> split !in Children(n2[q])
    ensures InsertFrame(n0, h0, nf0, n2, h2, nf2, p, split)
  {
    forall q | q in n2 && q !in n0 ensures nf0 <= q && q in h2 && h2[q] <= h0[p] {
      if q in n1 {
        assert h1[q] <= h0[c];
      }
    }
  }

  /** A delete at p is a delete at its child c followed by changes at c's
      level (the rebalance) and at p: the frame composes. */
  lemma DeleteFrameCompose<R>(n0: map<Ptr, Node<R>>, h0: map<Ptr, nat>, nf0: Ptr,
                              n1: map<Ptr, Node<R>>, h1: map<Ptr, nat>, nf1: Ptr,
                              n2: map<Ptr, Node<R>>, h2: map<Ptr, nat>, nf2: Ptr, p: Ptr, c: Ptr)
    requires HeightsOk(n0, h0) && DeleteFrame(n0, h0, nf0, n1, h1, nf1, c)
    requires p in n0 && n0[p].Internal? && c in n0[p].ptrs && c in n0
    requires nf1 <= nf2 && HeightsGrow(h1, h2) && p in n2
    requires forall q :: q in n1 && q != p && q !in Children(n0[p]) ==> q in n2 && n2[q] == n1[q]
    requires forall q :: q in n2 && q !in n1 ==> nf1 <= q && q in h2 && h2[q] < h0[p]
    ensures DeleteFrame(n0, h0, nf0, n2, h2, nf2, p)
  {
    forall q | q in n0 && q in h0 && h0[q] >= h0[p] ensures q in n2 && (q != p ==> n2[q] == n0[q]) {
      assert q in n1;
      if q != p {
        assert q !in Children(n0[p]);
      }
    }
    forall q | q in n2 && q !in n0 ensures nf0 <= q && q in h2 && h2[q] < h0[p] {
      if q in n1 {
        assert h1[q] < h0[c];
      }
    }
  }

  /** After the delete in the routed child c of p, p itself is unchanged,
      all of p's children are still stored, and c's leaf keys stay disjoint
      from those of its neighbours (a leaf delete only removes keys). */
  lemma DeleteChildReady<R>(n0: map<Ptr, Node<R>>, h0: map<Ptr, nat>, nf0: Ptr,
                            n1: map<Ptr, Node<R>>, h1: map<Ptr, nat>, nf1: Ptr, p: Ptr, key: Key, posn: int)
    requires StoreOk(n0, h0, nf0) && DeletePathOk(n0, h0, p, key) && n0[p].Internal?
    requires posn == Route(n0[p].keys, n0[p].size, key)
    requires DeleteFrame(n0, h0, nf0, n1, h1, nf1, n0[p].ptrs[posn])
    requires n0[p].ptrs[posn] in n1 && n1[n0[p].ptrs[posn]].Leaf? == n0[n0[p].ptrs[posn]].Leaf?
    requires n0[n0[p].ptrs[posn]].Leaf? ==> n1 == LeafDeleted(n0, n0[p].ptrs[posn], key)
    ensures p in n1 && n1[p] == n0[p]
    ensures forall q :: q in n0[p].ptrs ==> q in n1
    ensures posn > 0 ==> PairDisjoint(n1, n0[p].ptrs[posn - 1], n0[p].ptrs[posn])
    ensures posn < n0[p].size - 1 ==> PairDisjoint(n1, n0[p].ptrs[posn], n0[p].ptrs[posn + 1])
  {
    var n := n0[p];
    var c := n.ptrs[posn];
    forall q | q in n.ptrs ensures q in n1 && (q != c ==> n1[q] == n0[q]) {
      assert h0[q] == h0[c];
    }
    if n0[c].Leaf? {
      LeafDeleteEffect(n0, c, key);
    }
    if posn > 0 {
      assert PairDisjoint(n0, n.ptrs[posn - 1], c);
    }
    if posn < n.size - 1 {
      assert PairDisjoint(n0, c, n.ptrs[posn + 1]);
    }
  }

  // ---------------------------------------------------------------------
  // The rebalancing of a delete (InternalNode.cpp:216-318)

  /** TreeNode::redistributeData can run: two distinct stored nodes of the
      same kind, and `from` has an entry, or a locator and a key, to give. */
  ghost predicate RedistReady<R>(nodes: map<Ptr, Node<R>>, nf: Ptr, from: Ptr, to: Ptr)
  {
    && from in nodes && to in nodes && from != to && nf !in nodes
    && nodes[from].Leaf? == nodes[to].Leaf?
    && (nodes[from].Leaf? ==> nodes[from].entries != [] && nodes[to].size == |nodes[to].entries|)
    && (nodes[from].Internal? ==> |nodes[from].ptrs| >= 1 && |nodes[from].keys| >= 1)
  }

  /** The store after TreeNode::redistributeData, for either kind. */
  ghost function Redistributed<R>(nodes: map<Ptr, Node<R>>, nf: Ptr, from: Ptr, to: Ptr, fromIndex: int, toIndex: int): map<Ptr, Node<R>>
    requires RedistReady(nodes, nf, from, to)
  {
    if nodes[from].Leaf? then LeafRedistributed(nodes, nf, from, to, fromIndex, toIndex)
    else
      var (f, t) := RedistributeInternal(nodes[from], nodes[to], fromIndex, toIndex);
      nodes[from := f][to := t]
  }

  /** TreeNode::merge_nodes can run: two distinct stored nodes of the same
      kind, internal ones with at least one locator each. */
  ghost predicate MergeReady<R>(nodes: map<Ptr, Node<R>>, p: Ptr, s: Ptr)
  {
    && p in nodes && s in nodes && p != s && nodes[p].Leaf? == nodes[s].Leaf?
    && (nodes[p].Internal? ==> |nodes[p].ptrs| >= 1 && |nodes[s].ptrs| >= 1)
  }

  /** The store after TreeNode::merge_nodes, for either kind. */
  ghost function Merged<R>(nodes: map<Ptr, Node<R>>, height: map<Ptr, nat>, p: Ptr, s: Ptr): map<Ptr, Node<R>>
    requires HeightsOk(nodes, height) && MergeReady(nodes, p, s)
  {
    if nodes[p].Leaf? then LeafMerged(nodes, p, s)
    else
      var a := nodes[p];
      (nodes - {s})[p := MergeInternal(a, nodes[s], MaxIn(nodes, height, a.ptrs[|a.ptrs| - 1]))]
  }

  /** One rebalancing step of InternalNode::delete_key, from store n1 to
      store n2, at parent p whose in-memory form (separator refreshed) is m
      and whose routed child is at posn: the branch is the first applicable
      one in the source's order, read off the child's and the neighbours'
      counters; the children level changes as redistributeData or
      merge_nodes says; the parent dumped is m with the branch's separator
      rewrite or locator erase, the rewritten separator being the max of
      the left neighbour (left redistribution) or of the child (right
      redistribution) after the move. */
  ghost predicate RebalanceStep<R>(n1: map<Ptr, Node<R>>, h1: map<Ptr, nat>, nf1: Ptr,
                                   n2: map<Ptr, Node<R>>, h2: map<Ptr, nat>,
                                   p: Ptr, m: Node<R>, posn: int, b: Rebalance)
  {
    && HeightsOk(n1, h1) && HeightsOk(n2, h2) && p in n2
    && m.Internal? && 2 <= m.size && |m.ptrs| == m.size && |m.keys| == m.size - 1 && 0 <= posn < m.size
    && (forall c :: c in m.ptrs ==> c in n1)
    && var c := m.ptrs[posn];
       var l, r := LeftNeighbour(m, posn), RightNeighbour(m, posn);
       && b == RebalanceChoice(posn, m.size, n1[c].size, n1[l].size, n1[r].size)
       && n2[p] == RebalancedParent(m, posn, b, if b == LeftRedistribute then MaxIn(n2, h2, l) else MaxIn(n2, h2, c))
       && match b
          case NoUnderflow => n2 == n1[p := m]
          case LeftRedistribute => RedistReady(n1, nf1, l, c) && n2 == Redistributed(n1, nf1, l, c, posn - 1, posn)[p := n2[p]]
          case RightRedistribute => RedistReady(n1, nf1, r, c) && n2 == Redistributed(n1, nf1, r, c, posn + 1, posn)[p := n2[p]]
          case LeftMerge => MergeReady(n1, l, c) && n2 == Merged(n1, h1, l, c)[p := n2[p]]
          case RightMerge => MergeReady(n1, c, r) && n2 == Merged(n1, h1, c, r)[p := n2[p]]
  }

  /** The parent dumped after a rebalance is well-formed, names no child it
      did not name before, and a merge drops exactly the absorbed child. */
  lemma RebalancedNodeOk<R>(n: Node<R>, posn: int, b: Rebalance, mx: Key, nf: Ptr)
    requires n.Internal? && NodeOk(n, nf) && 2 <= n.size && 0 <= posn < n.size
    requires b == LeftRedistribute || b == LeftMerge ==> posn != 0
    requires b == RightRedistribute || b == RightMerge ==> posn != n.size - 1
    ensures var r := RebalancedParent(n, posn, b, mx);
      && NodeOk(r, nf) && Children(r) <= Children(n)
      && (b == LeftMerge ==> Children(r) == Children(n) - {n.ptrs[posn]})
      && (b == RightMerge ==> Children(r) == Children(n) - {n.ptrs[posn + 1]})
  {
    var r := RebalancedParent(n, posn, b, mx);
    if b == LeftMerge || b == RightMerge {
      var i := if b == LeftMerge then posn else posn + 1;
      EraseNodeOk(n, i, r.keys, nf);
      assert r.ptrs == n.ptrs[..i] + n.ptrs[i + 1..];
      DistinctCut(n.ptrs, i);
      DistinctCut(n.ptrs[i..], 1);
      assert n.ptrs[i..] == [n.ptrs[i]] + n.ptrs[i + 1..];
      forall x | x in Children(n) - {n.ptrs[i]} ensures x in Children(r) {
        assert x in n.ptrs[..i] || x in n.ptrs[i..];
      }
    }
  }

  /** The two nodes a merge of the child at posn joins are distinct
      stored siblings of the same level, below p, with disjoint keys when
      they are leaves. */
  lemma MergeChildReady<R>(nodes: map<Ptr, Node<R>>, height: map<Ptr, nat>, nf: Ptr, p: Ptr, m: Node<R>, posn: int, b: Rebalance)
    requires StoreOk(nodes, height, nf) && p in nodes && nodes[p].Internal?
    requires m.Internal? && m.ptrs == nodes[p].ptrs && m.size == nodes[p].size
    requires 2 <= m.size && 0 <= posn < m.size && forall c :: c in m.ptrs ==> c in nodes
    requires posn > 0 ==> PairDisjoint(nodes, m.ptrs[posn - 1], m.ptrs[posn])
    requires posn < m.size - 1 ==> PairDisjoint(nodes, m.ptrs[posn], m.ptrs[posn + 1])
    requires b == LeftMerge || b == RightMerge
    requires b == LeftMerge ==> posn != 0
    requires b == RightMerge ==> posn != m.size - 1
    ensures var a := if b == LeftMerge then m.ptrs[posn - 1] else m.ptrs[posn];
      var s := if b == LeftMerge then m.ptrs[posn] else m.ptrs[posn + 1];
      && a in nodes && s in nodes && a != p && s != p && height[a] == height[s] && MergeReady(nodes, a, s)
      && (nodes[a].Leaf? ==> KeysOf(nodes[a].entries) !! KeysOf(nodes[s].entries))
  {
    var a := if b == LeftMerge then m.ptrs[posn - 1] else m.ptrs[posn];
    var s := if b == LeftMerge then m.ptrs[posn] else m.ptrs[posn + 1];
    assert a in nodes[p].ptrs && s in nodes[p].ptrs;
    assert height[a] + 1 == height[p] && height[s] + 1 == height[p];
    assert NodeOk(nodes[p], nf) && NodeOk(nodes[a], nf) && NodeOk(nodes[s], nf);
  }

  /** A merge of siblings a and s (s removed, a rewritten) followed by a
      rewrite of their parent p leaves every other node as it was and adds
      none. */
  lemma MergeFrame<R>(n1: map<Ptr, Node<R>>, mid: map<Ptr, Node<R>>, n2: map<Ptr, Node<R>>, p: Ptr, g: Node<R>, a: Ptr, s: Ptr, kids: set<Ptr>)
    requires p in n1 && a in kids && s in kids && n2 == mid[p := g]
    requires mid.Keys == n1.Keys - {s} && forall q :: q in mid && q != a ==> mid[q] == n1[q]
    ensures forall q :: q in n1 && q != p && q !in kids ==> q in n2 && n2[q] == n1[q]
    ensures forall q :: q in n2 ==> q in n1
  {
  }

  /** A merge at the children level followed by the parent's erase is a
      rebalancing step, and the store stays well-formed. */
  lemma MergeStep<R>(n1: map<Ptr, Node<R>>, h1: map<Ptr, nat>, nf: Ptr, mid: map<Ptr, Node<R>>, n2: map<Ptr, Node<R>>,
                     p: Ptr, m: Node<R>, posn: int, b: Rebalance, a: Ptr, s: Ptr)
    requires StoreOk(n1, h1, nf) && p in n1 && n1[p].Internal?
    requires m.Internal? && m.ptrs == n1[p].ptrs && m.size == n1[p].size && |m.keys| == m.size - 1
    requires 2 <= m.size && 0 <= posn < m.size && forall c :: c in m.ptrs ==> c in n1
    requires b == LeftMerge || b == RightMerge
    requires b == RebalanceChoice(posn, m.size, n1[m.ptrs[posn]].size,
                                  n1[LeftNeighbour(m, posn)].size, n1[RightNeighbour(m, posn)].size)
    requires a == (if b == LeftMerge then m.ptrs[posn - 1] else m.ptrs[posn])
    requires s == (if b == LeftMerge then m.ptrs[posn] else m.ptrs[posn + 1])
    requires MergeReady(n1, a, s) && mid == Merged(n1, h1, a, s)
    requires StoreOk(mid, h1, nf) && p in mid && mid[p] == n1[p]
    requires n2 == mid[p := RebalancedParent(m, posn, b, DELETE_MARKER)]
    ensures StoreOk(n2, h1, nf) && RebalanceStep(n1, h1, nf, n2, h1, p, m, posn, b)
  {
    var g := RebalancedParent(m, posn, b, DELETE_MARKER);
    assert NodeOk(m, nf) by { assert NodeOk(n1[p], nf); }
    RebalancedNodeOk(m, posn, b, DELETE_MARKER, nf);
    ReplaceInternalOk(mid, h1, nf, p, g, m.ptrs[posn]);
    assert n2[p] == RebalancedParent(m, posn, b, MaxIn(n2, h1, m.ptrs[posn]));
  }

  /** The neighbour a redistribution takes from and the child are distinct
      stored siblings below p, and the neighbour has something to give:
      together they hold at least 2 * MIN_OCCUPANCY while the child holds
      fewer than MIN_OCCUPANCY. */
  lemma RedistChildReady<R>(nodes: map<Ptr, Node<R>>, height: map<Ptr, nat>, nf: Ptr, p: Ptr, m: Node<R>, posn: int, b: Rebalance)
    requires StoreOk(nodes, height, nf) && p in nodes && nodes[p].Internal?
    requires m.Internal? && m.ptrs == nodes[p].ptrs && m.size == nodes[p].size
    requires 2 <= m.size && 0 <= posn < m.size && forall c :: c in m.ptrs ==> c in nodes
    requires b == LeftRedistribute || b == RightRedistribute
    requires b == RebalanceChoice(posn, m.size, nodes[m.ptrs[posn]].size,
                                  nodes[LeftNeighbour(m, posn)].size, nodes[RightNeighbour(m, posn)].size)
    ensures var c := m.ptrs[posn];
      var nb := if b == LeftRedistribute then m.ptrs[posn - 1] else m.ptrs[posn + 1];
      && nb in nodes && c in nodes && nb != p && c != p && height[nb] == height[c]
      && RedistReady(nodes, nf, nb, c) && (nodes[nb].Internal? ==> nodes[nb].size >= 2)
  {
    var c := m.ptrs[posn];
    var nb := if b == LeftRedistribute then m.ptrs[posn - 1] else m.ptrs[posn + 1];
    assert nb in nodes[p].ptrs && c in nodes[p].ptrs;
    assert height[nb] + 1 == height[p] && height[c] + 1 == height[p];
    assert NodeOk(nodes[p], nf) && NodeOk(nodes[nb], nf) && NodeOk(nodes[c], nf);
  }

  /** A redistribution between siblings nb and c (which may allocate leaves
      at level 0) followed by a rewrite of their parent p leaves every other
      node as it was. */
  lemma RedistFrame<R>(n1: map<Ptr, Node<R>>, mid: map<Ptr, Node<R>>, n2: map<Ptr, Node<R>>, h: map<Ptr, nat>, nf1: Ptr,
                       p: Ptr, g: Node<R>, nb: Ptr, c: Ptr, kids: set<Ptr>)
    requires p in n1 && nb in kids && c in kids && p != nb && p != c && n2 == mid[p := g]
    requires n1.Keys <= mid.Keys && forall q :: q in n1 && q != nb && q != c ==> mid[q] == n1[q]
    requires forall q :: q in mid && q !in n1 ==> nf1 <= q && q in h && h[q] == 0
    ensures p in mid && mid[p] == n1[p]
    ensures forall q :: q in n1 && q != p && q !in kids ==> q in n2 && n2[q] == n1[q]
    ensures forall q :: q in n2 && q !in n1 ==> nf1 <= q && q in h && h[q] == 0
  {
  }

  /** No underflow: the parent, its separator refreshed, is dumped as it
      is, which is a rebalancing step keeping the store well-formed. */
  lemma NoUnderflowStep<R>(nodes: map<Ptr, Node<R>>, height: map<Ptr, nat>, nf: Ptr, p: Ptr, m: Node<R>, posn: int)
    requires StoreOk(nodes, height, nf) && p in nodes && nodes[p].Internal?
    requires m.Internal? && m.ptrs == nodes[p].ptrs && m.size == nodes[p].size && |m.keys| == m.size - 1
    requires 2 <= m.size && 0 <= posn < m.size && forall c :: c in m.ptrs ==> c in nodes
    requires NoUnderflow == RebalanceChoice(posn, m.size, nodes[m.ptrs[posn]].size,
                                            nodes[LeftNeighbour(m, posn)].size, nodes[RightNeighbour(m, posn)].size)
    ensures StoreOk(nodes[p := m], height, nf)
    ensures RebalanceStep(nodes, height, nf, nodes[p := m], height, p, m, posn, NoUnderflow)
  {
    assert NodeOk(m, nf) by { assert NodeOk(nodes[p], nf); }
    ReplaceInternalOk(nodes, height, nf, p, m, m.ptrs[posn]);
  }

  /** A redistribution at the children level followed by the parent's
      separator rewrite is a rebalancing step, and the store stays
      well-formed. */
  lemma RedistStep<R>(n1: map<Ptr, Node<R>>, h1: map<Ptr, nat>, nf1: Ptr,
                      mid: map<Ptr, Node<R>>, h2: map<Ptr, nat>, nf2: Ptr, n2: map<Ptr, Node<R>>,
                      p: Ptr, m: Node<R>, posn: int, b: Rebalance, nb: Ptr, nbIndex: int)
    requires StoreOk(n1, h1, nf1) && p in n1 && n1[p].Internal?
    requires m.Internal? && m.ptrs == n1[p].ptrs && m.size == n1[p].size && |m.keys| == m.size - 1
    requires 2 <= m.size && 0 <= posn < m.size && forall c :: c in m.ptrs ==> c in n1
    requires b == LeftRedistribute || b == RightRedistribute
    requires b == RebalanceChoice(posn, m.size, n1[m.ptrs[posn]].size,
                                  n1[LeftNeighbour(m, posn)].size, n1[RightNeighbour(m, posn)].size)
    requires nb == (if b == LeftRedistribute then m.ptrs[posn - 1] else m.ptrs[posn + 1])
    requires nbIndex == (if b == LeftRedistribute then posn - 1 else posn + 1)
    requires RedistReady(n1, nf1, nb, m.ptrs[posn]) && mid == Redistributed(n1, nf1, nb, m.ptrs[posn], nbIndex, posn)
    requires StoreOk(mid, h2, nf2) && nf1 <= nf2 && HeightsGrow(h1, h2) && p in mid && mid[p] == n1[p]
    requires n1.Keys <= mid.Keys
    requires n2 == mid[p := RebalancedParent(m, posn, b, MaxIn(mid, h2, if b == LeftRedistribute then nb else m.ptrs[posn]))]
    ensures StoreOk(n2, h2, nf2) && RebalanceStep(n1, h1, nf1, n2, h2, p, m, posn, b)
  {
    var c := m.ptrs[posn];
    var x := if b == LeftRedistribute then nb else c;
    var mx := MaxIn(mid, h2, x);
    var g := RebalancedParent(m, posn, b, mx);
    assert NodeOk(m, nf2) by { assert NodeOk(n1[p], nf1); NodeOkMono(n1[p], nf1, nf2); }
    RebalancedNodeOk(m, posn, b, mx, nf2);
    ReplaceInternalOk(mid, h2, nf2, p, g, c);
    assert x in m.ptrs && x in n1;
    assert h2[x] + 1 == h2[p] by { assert h1[x] + 1 == h1[p]; }
    ParentRewriteKeepsMax(mid, h2, p, g, x);
  }

  /** A redistributing rebalance as a whole: the siblings' redistribution,
      then the parent's rewrite, is a rebalancing step that keeps the store
      well-formed and touches no node outside p and its children. */
  lemma RedistChildStep<R>(n1: map<Ptr, Node<R>>, h1: map<Ptr, nat>, nf1: Ptr,
                           mid: map<Ptr, Node<R>>, h2: map<Ptr, nat>, nf2: Ptr, n2: map<Ptr, Node<R>>,
                           p: Ptr, m: Node<R>, posn: int, b: Rebalance)
    requires StoreOk(n1, h1, nf1) && p in n1 && n1[p].Internal?
    requires m.Internal? && m.ptrs == n1[p].ptrs && m.size == n1[p].size && |m.keys| == m.size - 1
    requires 2 <= m.size && 0 <= posn < m.size && forall c :: c in m.ptrs ==> c in n1
    requires b == LeftRedistribute || b == RightRedistribute
    requires b == RebalanceChoice(posn, m.size, n1[m.ptrs[posn]].size,
                                  n1[LeftNeighbour(m, posn)].size, n1[RightNeighbour(m, posn)].size)
    requires var nb := if b == LeftRedistribute then m.ptrs[posn - 1] else m.ptrs[posn + 1];
      var nbIndex := if b == LeftRedistribute then posn - 1 else posn + 1;
      RedistReady(n1, nf1, nb, m.ptrs[posn]) && mid == Redistributed(n1, nf1, nb, m.ptrs[posn], nbIndex, posn)
    requires StoreOk(mid, h2, nf2) && nf1 <= nf2 && HeightsGrow(h1, h2)
    requires n1.Keys <= mid.Keys
    requires forall q :: q in n1 && q != m.ptrs[posn] && q != (if b == LeftRedistribute then m.ptrs[posn - 1] else m.ptrs[posn + 1]) ==> mid[q] == n1[q]
    requires forall q :: q in mid && q !in n1 ==> nf1 <= q && q in h2 && h2[q] == 0
    requires n2 == mid[p := RebalancedParent(m, posn, b, MaxIn(mid, h2, if b == LeftRedistribute then m.ptrs[posn - 1] else m.ptrs[posn]))]
    ensures StoreOk(n2, h2, nf2) && RebalanceStep(n1, h1, nf1, n2, h2, p, m, posn, b)
    ensures forall q :: q in n1 && q != p && q !in Children(m) ==> q in n2 && n2[q] == n1[q]
    ensures forall q :: q in n2 && q !in n1 ==> nf1 <= q && q in h2 && h2[q] == 0
  {
    var c := m.ptrs[posn];
    var nb := if b == LeftRedistribute then m.ptrs[posn - 1] else m.ptrs[posn + 1];
    var nbIndex := if b == LeftRedistribute then posn - 1 else posn + 1;
    RedistChildReady(n1, h1, nf1, p, m, posn, b);
    assert nb in m.ptrs && c in m.ptrs;
    RedistFrame(n1, mid, n2, h2, nf1, p, n2[p], nb, c, Children(m));
    RedistStep(n1, h1, nf1, mid, h2, nf2, n2, p, m, posn, b, nb, nbIndex);
  }

  /** Rewriting a node leaves the max of every lower subtree as it was. */
  lemma ParentRewriteKeepsMax<R>(nodes: map<Ptr, Node<R>>, height: map<Ptr, nat>, p: Ptr, g: Node<R>, x: Ptr)
    requires HeightsOk(nodes, height) && HeightsOk(nodes[p := g], height)
    requires p in nodes && x in nodes && height[x] < height[p]
    ensures MaxIn(nodes[p := g], height, x) == MaxIn(nodes, height, x)
  {
    MaxUnchanged(nodes, height, nodes[p := g], height, x, height[p] - 1);
  }
}
