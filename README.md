# B+-tree node engine

A model of the node level of a disk-backed B+-tree (`src/LeafNode.cpp` and
`src/InternalNode.cpp`). A leaf keeps an ordered map from keys to record
locators, a `size` counter and a link to the next leaf. An internal node
keeps child locators (`tree_pointers`), separator keys and a `size`
counter. Every node lives in a block store addressed by locators. Loading
a node is a lookup in that store, `dump` is an update, `delete_node` is a
removal, and `new LeafNode()` / `new InternalNode()` take the next unused
locator.

Modules (one per file):

- `Types` (`types.dfy`): locators, keys, `FANOUT = 4`, `MIN_OCCUPANCY = 2`, `DELETE_MARKER`, the node datatype and `Persist`, the form `dump` writes.
- `LeafEntries` (`leaf_entries.dfy`): a leaf's entries as a strictly increasing sequence, the map they stand for, and the entry-level steps of insert, erase, merge, split, max and the range scan.
- `InternalLogic` (`internal_logic.dfy`): the pure parts of an internal node.
  - routing loops;
  - separator bookkeeping after a child split, including the last-child defect;
  - the split copy loop, one-child redistribution and merge;
  - the choice of rebalancing branch, and the parent as rebalancing leaves it.
- `StoreState` (`store_state.dfy`): the store as a value.
  - the well-formedness invariant `StoreOk`, the subtree max `MaxIn`;
  - the store after each leaf operation, as functions;
  - the lemmas showing that every edit keeps `StoreOk`;
  - the step predicates that the recursive insert and delete are proved against.
- `StoreContents` (`store_contents.dfy`): what the store holds key by key.
  - `StoreKeys`, the keys of all stored leaves, and `Stores`, a key held with a given record;
  - `RoutedLeaf`, the leaf the routing of a key reaches from a node;
  - how each leaf operation and each rebalancing step changes the store's keys.
- `NodeStore` (`node_store.dfy`): the class `Store`. Its fields are the node map, the next free locator and a ghost level map. Its methods perform each operation of both node kinds in place.
- `RangeScan` (`range_scan.dfy`): the read-only range query, with the nodes it reads counted.

The recursive `insert_key` and `delete_key` are methods that recurse
through `Insert`/`InternalInsert` and `Delete`/`InternalDelete`. They
terminate on the ghost level map. Each level is proved against a
one-level specification:

- for insert: `LeafInserted`, `AbsorbChildSplit`, `SplitLeftInMemory`/`SplitRight`;
- for delete: `LeafDeleted` and `RebalanceStep`.

All of them keep `StoreOk`. Across all levels, an insert adds exactly its
key to the store's keys, stores a new key with its record and loses no
record (`InsertedInto`). A delete erases its key from the leaf its routing
reaches (`RoutedLeaf`) and from nowhere else, and the rebalancing that
follows neither adds nor drops a key.

Kept as written: internal `redistributeData` moves the donor's boundary
separator together with its locator (`src/InternalNode.cpp:153`, `175`).
That separator is the max of a different child, so after an internal
redistribution a separator no longer equals its child's max.
`InternalLogic.RedistributeLeftMovesWrongKey` and
`InternalLogic.RedistributeRightMovesWrongKey` exhibit this. Only the
sequence and size effects are claimed for it.

## Model

| member | source | states |
|---|---|---|
| Types.Persist | src/InternalNode.cpp:374-388 | the stored form of an internal node has exactly `size` locators and `size - 1` keys, the first ones of the in-memory node, and equals the node when its vectors already have those lengths |
| LeafEntries.LeafMax | src/LeafNode.cpp:12-15 | on a non-empty leaf the max is a stored key and on ordered entries no key exceeds it; an empty leaf yields DELETE_MARKER |
| LeafEntries.InsertEntryCorrect | src/LeafNode.cpp:24-28 | inserting into ordered entries keeps them ordered, the map becomes old map with key ↦ rec, and the count grows by one exactly when the key was new |
| LeafEntries.RemoveEntryCorrect | src/LeafNode.cpp:117-120 | erasing keeps the entries ordered, removes exactly that key from the map, and shrinks the count by one exactly when the key was present |
| LeafEntries.InsertAllCorrect | src/LeafNode.cpp:104-105 | inserting a sibling's entries keeps order; the map is the union in which existing keys win (std::map::insert); with disjoint keys the count is the sum |
| LeafEntries.InsertAllRightSibling | src/LeafNode.cpp:104 | when every key of self is below every key of the sibling, the merged entries are self's followed by the sibling's |
| LeafEntries.SplitEntries | src/LeafNode.cpp:49-66 | the copy loop splits the entries into the first `mid` (kept) and the rest (moved), and counts the moved ones |
| LeafEntries.SplitPartition | src/LeafNode.cpp:47-68 | the kept and moved parts are ordered, disjoint, every kept key is below every moved key, and together they give back the original keys and map |
| LeafEntries.ScanEntriesIsFilter | src/LeafNode.cpp:128-133 | on ordered entries the loop with early return emits exactly the entries with lo ≤ k ≤ hi, and returns early exactly when some key exceeds hi |
| LeafEntries.FilterBounds | src/LeafNode.cpp:129 | every emitted entry lies within [lo, hi] and is one of the leaf's keys |
| LeafEntries.FilterSorted | src/LeafNode.cpp:128-130 | the emitted entries come out in increasing key order |
| InternalLogic.Route | src/InternalNode.cpp:40-50 | the routed position lies in [0, size-1]; every earlier separator is set and below the key; a position before the last has an unset separator or one at least the key |
| InternalLogic.RouteUnique | src/InternalNode.cpp:226-236 | any position meeting those three conditions is the routed one, so routing is determined by them |
| InternalLogic.FindPosition | src/InternalNode.cpp:40-50 | the routing loop returns the position `Route` specifies |
| InternalLogic.RangeChild | src/InternalNode.cpp:323-333 | range routing picks the first child whose separator is at least the lower bound, else the last child |
| InternalLogic.RangeChildIsRoute | src/InternalNode.cpp:321-334 | with no unset separators, range routing descends where an insert of the lower bound is routed |
| InternalLogic.SingleChild | src/InternalNode.cpp:21-25 | size 1 yields the only child, any other size NULL_PTR |
| InternalLogic.SpliceAfter | src/InternalNode.cpp:73-80 | the temp-vector loop puts the new locator at posn + 1 and keeps all others in order around it |
| InternalLogic.KeysAfterChildSplit | src/InternalNode.cpp:82-84 | the corrected separator update adds exactly one key and agrees with the source's update whenever the split child is not the last |
| InternalLogic.LastChildSplitIndexesPastEnd | src/InternalNode.cpp:83-84 | a key above every separator is routed to the last child, whose index equals the key count, so `keys[posn]` is one past the end |
| InternalLogic.LastChildSplitExample | src/InternalNode.cpp:83 | separators [10] and key 20: posn is 1 == |keys| |
| InternalLogic.SeparatorsAfterChildSplit | src/InternalNode.cpp:82-84 | if each separator was the max of the child to its left, after the corrected update it still is, with the split child's and the new sibling's maxes in place |
| InternalLogic.AbsorbChildSplit | src/InternalNode.cpp:72-84 | size grows by one, the new locator sits at posn + 1, the locators before and after it are the old ones in order, and the shape stays exact |
| InternalLogic.SplitChildren | src/InternalNode.cpp:105-112 | the copy loop gives the new node locators mid..size-1, keys mid..size-2 and size `size - mid` |
| InternalLogic.SplitNode | src/InternalNode.cpp:99-120 | the split yields exactly `SplitRight` as the new node and `SplitLeftInMemory` as the cut-back original |
| InternalLogic.SplitLeftInMemory | src/InternalNode.cpp:118-120 | after the erases self has size mid but keeps mid + 1 locators and mid keys in memory |
| InternalLogic.InternalSplitPartition | src/InternalNode.cpp:99-137 | the stored halves have sizes mid and size - mid; their locators concatenate to the original; their keys plus the middle key give the original keys; separators that were child maxes stay child maxes |
| InternalLogic.RedistributeInternalEffect | src/InternalNode.cpp:147-190 | sizes move by one, exact shapes stay exact, and the two nodes read left to right hold the same locators and keys as before, for both directions |
| InternalLogic.RedistributeLeftMovesWrongKey | src/InternalNode.cpp:153 | with separators equal to child maxes, the key moved in front of `to` is not the max of the moved child |
| InternalLogic.RedistributeRightMovesWrongKey | src/InternalNode.cpp:175 | with separators equal to the child maxes of both nodes, the separator appended for `to`'s old last child is the max of `from`'s first child; when `to`'s children lie below `from`'s it is not the max of `to`'s old last child |
| InternalLogic.MergeInternalEffect | src/InternalNode.cpp:198-209 | with distinct boundary locators the merged node holds both locator lists and size is the sum; the separators are the child maxes of both nodes across the seam |
| InternalLogic.MergeInternalSharedBoundary | src/InternalNode.cpp:202-209 | with a shared boundary locator it is kept once, yet size still counts it twice |
| InternalLogic.RebalanceChoice | src/InternalNode.cpp:251-316 | no rebalancing iff the child does not underflow; left redistribution and left merge need a left neighbour and are told apart by the size sum; right branches are reached only at position 0; right redistribution needs a right neighbour and the size sum |
| InternalLogic.RefreshSeparator | src/InternalNode.cpp:244-248 | the child's separator becomes its new max unless it is the last child; all other keys stay |
| InternalLogic.RebalancedParent | src/InternalNode.cpp:271-314 | redistribution rewrites key posn-1 (left) or posn (right) and nothing else; left merge drops locator posn and key posn-1; right merge drops locator posn+1 and key posn; each merge lowers size by exactly one |
| StoreState.MaxInStored | src/InternalNode.cpp:12-18 | the subtree max is the max of `RightmostLeaf`, the leaf reached through each child at size - 1: a key that leaf holds, at least every key of it when it is ordered, and DELETE_MARKER when the descent reaches no leaf or an empty one |
| StoreState.MaxUnchanged | src/InternalNode.cpp:12-18 | a subtree's max depends only on nodes at its level and below |
| StoreState.LeafInserted | src/LeafNode.cpp:19-73 | an insert touches only the leaf and possibly one new leaf, which is the one returned |
| StoreState.LeafInsertedOk | src/LeafNode.cpp:19-73 | an insert keeps the store well-formed; a split leaf takes the next free locator at level 0 |
| StoreState.LeafInsertPresent | src/LeafNode.cpp:24-25 | inserting a present key leaves the store unchanged and returns NULL_PTR |
| StoreState.LeafInsertNoOverflow | src/LeafNode.cpp:27-35 | without overflow the leaf's map gains key ↦ rec, size grows by one, the chain link stays, other nodes are untouched and NULL_PTR is returned |
| StoreState.LeafInsertSplit | src/LeafNode.cpp:40-72 | on overflow self keeps its MIN_OCCUPANCY smallest entries and the new leaf the rest: disjoint, all below, union is the old map plus the key; sizes MIN_OCCUPANCY and total − MIN_OCCUPANCY; chain spliced; new locator returned |
| StoreState.LeafDeleteEffect | src/LeafNode.cpp:112-123 | a present key is removed and size drops by one; an absent key leaves the store unchanged; other nodes and the chain link stay |
| StoreState.LeafMergeEffect | src/LeafNode.cpp:100-109 | self's map becomes the union, size the sum of sizes, self takes the sibling's next link, and the sibling leaves the store |
| StoreState.LeafRedistributeEffect | src/LeafNode.cpp:75-97 | exactly one entry moves: from's greatest when fromIndex < toIndex, its smallest otherwise; sizes change by ∓1 and the combined map is preserved |
| StoreState.SplitOk | src/InternalNode.cpp:99-138 | an internal split that partitions the children keeps the store invariant, with the new node at the old node's level |
| StoreState.MergeOk | src/InternalNode.cpp:194-213 | an internal merge keeps the store invariant once the sibling is deleted |
| StoreState.RedistOk | src/InternalNode.cpp:142-191 | an internal redistribution keeps the store invariant |
| StoreState.SplitStep | src/InternalNode.cpp:99-138 | after the split the store is well-formed, the new node is nobody's child, and every subtree max below the split level is unchanged |
| StoreState.DeleteChildReady | src/InternalNode.cpp:239-240 | after the child's delete the parent is unchanged, all its children are still stored, and the child's leaf keys stay disjoint from its neighbours' |
| StoreState.NoUnderflowStep | src/InternalNode.cpp:252-257 | when the child does not underflow, dumping the refreshed parent keeps the store well-formed and is the `NoUnderflow` rebalancing step |
| StoreState.MergeStep | src/InternalNode.cpp:277-316 | a merge branch keeps the store invariant and is the rebalancing step `RebalanceStep` describes |
| StoreState.RedistStep | src/InternalNode.cpp:261-305 | a redistribution branch keeps the store invariant and is the rebalancing step `RebalanceStep` describes, with the rewritten separator read after the move |
| StoreState.RedistChildStep | src/InternalNode.cpp:261-305 | the redistribution followed by the parent's rewrite keeps the store invariant, is a `RebalanceStep`, and leaves every node outside p and its children unchanged |
| StoreState.LeafInsertedFresh | src/LeafNode.cpp:40-72 | after a leaf insert the next free locator is still nobody's child |
| StoreContents.RoutedLeaf | src/InternalNode.cpp:226-240 | the descent along the routed children ends at a stored leaf |
| StoreContents.RoutedLeafStep | src/InternalNode.cpp:239-240 | the routing from an internal node continues from the child it picks |
| StoreContents.KeysAfterEraseMeaning | src/LeafNode.cpp:112-123 | erasing a key from one leaf removes no other key and adds none, and the key leaves the store exactly when no other leaf holds it |
| StoreContents.LeafInsertedKeys | src/LeafNode.cpp:19-73 | a leaf insert adds exactly its key to the store's keys, the key sits in the leaf or its new split sibling, and a key the leaf lacked is stored with its record |
| StoreContents.LeafInsertedKeysInPlace | src/LeafNode.cpp:27-35 | without overflow the new key lands in the leaf itself and is stored with its record |
| StoreContents.LeafInsertedKeysSplit | src/LeafNode.cpp:40-72 | on overflow the new key lands in one of the two halves, stored with its record, and the store's keys gain exactly it |
| StoreContents.LeafInsertedKeeps | src/LeafNode.cpp:19-73 | a leaf insert loses no record of any leaf |
| StoreContents.LeafInsertedInto | src/LeafNode.cpp:19-73 | a leaf insert is an insert of key and record into the store (`InsertedInto`) |
| StoreContents.InsertedIntoSameLeaves | src/InternalNode.cpp:72-139 | rewriting internal nodes after an insert keeps it an insert of the same key and record |
| StoreContents.AbsorbSameLeaves | src/InternalNode.cpp:72-138 | dumping the parent that absorbed the child's split, or its two halves, changes no leaf |
| StoreContents.LeafDeletedKeys | src/LeafNode.cpp:112-123 | a leaf delete erases the key from that leaf and from nowhere else |
| StoreContents.LeafMergedKeys | src/LeafNode.cpp:100-109 | a leaf merge keeps the store's keys: the union stays, the sibling goes |
| StoreContents.LeafRedistributedKeys | src/LeafNode.cpp:75-97 | moving one entry between leaves keeps the store's keys |
| StoreContents.RedistributedKeys | src/InternalNode.cpp:142-191 | redistribution of either kind keeps the store's keys and every node other than the two involved |
| StoreContents.MergedKeys | src/InternalNode.cpp:194-213 | a merge of either kind keeps the store's keys and every node other than the two involved |
| StoreContents.RebalanceKeys | src/InternalNode.cpp:251-316 | every rebalancing branch, with the parent's rewrite, keeps the store's keys |
| NodeStore.Store.CreateLeaf | src/LeafNode.cpp:4-9 | a new empty leaf with no next link is stored at the next free locator |
| NodeStore.Store.LeafInsert | src/LeafNode.cpp:19-73 | the store and result become exactly those of `LeafInserted`, and the invariant holds |
| NodeStore.Store.LeafDelete | src/LeafNode.cpp:112-123 | the store becomes `LeafDeleted`, nothing is allocated, and the invariant holds |
| NodeStore.Store.LeafMerge | src/LeafNode.cpp:100-109 | the store becomes `LeafMerged` and the invariant holds |
| NodeStore.Store.LeafRedistribute | src/LeafNode.cpp:75-97 | insert into `to` then delete from `from` give exactly `LeafRedistributed`; the invariant holds |
| NodeStore.Store.InternalRedistribute | src/InternalNode.cpp:142-191 | the two nodes become `RedistributeInternal`'s result and the invariant holds |
| NodeStore.Store.InternalMerge | src/InternalNode.cpp:194-213 | p becomes the merge with the max of its last child as the seam key, the sibling is deleted, and the invariant holds |
| NodeStore.Store.Redistribute | src/InternalNode.cpp:270 | the dispatch on node kind gives `Redistributed` and touches only the two nodes |
| NodeStore.Store.MergeNodes | src/InternalNode.cpp:282 | the dispatch gives `Merged`, removing exactly the absorbed node |
| NodeStore.Store.Insert | src/InternalNode.cpp:61 | an insert at p keeps the invariant; it leaves nodes at p's level and above untouched; a returned split node is new, at p's level and nobody's child; a leaf insert is `LeafInserted`; at every level the store's keys gain exactly the key, a new key is stored with its record, and no record is lost (`InsertedInto`) |
| NodeStore.Store.InternalInsert | src/InternalNode.cpp:29-139 | routes with `Route`; the store after the child's insert is an `InsertedInto` the old one, within the child's insert frame, and `childSplit` is what that insert returned; no child split leaves the store as the child left it; a child split stores `AbsorbChildSplit` with the two maxes; on overflow p keeps the left half and the new node the right half; p's own rewrite touches no leaf |
| NodeStore.Store.AbsorbSplitOf | src/InternalNode.cpp:72-93 | p absorbs the sibling; only p and possibly one new node change |
| NodeStore.Store.SplitInternal | src/InternalNode.cpp:99-138 | the new node holds `SplitRight` at p's level, p holds the stored left half, and subtree maxes below are unchanged |
| NodeStore.Store.Delete | src/InternalNode.cpp:240 | a delete at p keeps the invariant and the kind of p, leaves nodes at p's level and above other than p untouched, and a leaf delete is `LeafDeleted`; at every level the store's keys become the old ones with the key erased from `RoutedLeaf`, the leaf the routing reaches, and from no other leaf |
| NodeStore.Store.InternalDelete | src/InternalNode.cpp:216-318 | routes with `Route`; after the child's delete the store's keys are the old ones with the key erased from the routed leaf; refreshes the child's separator with its new max, then performs exactly the `RebalanceStep` of the first applicable branch, which keeps the store's keys |
| NodeStore.Store.RebalanceAt | src/InternalNode.cpp:251-316 | the underflow cascade is `RebalanceStep`, and nodes outside p and its children are untouched |
| NodeStore.Store.RedistributeChild | src/InternalNode.cpp:261-305 | a redistribution branch is `RebalanceStep` with the neighbour's or the child's max written after the move |
| NodeStore.Store.RedistributeSiblings | src/InternalNode.cpp:261-297 | the neighbour on the chosen side and the child end up exactly as `Redistributed` says, every other node is kept and any new node is a fresh locator at level 0 |
| NodeStore.Store.MergeChild | src/InternalNode.cpp:277-316 | a merge branch is `RebalanceStep`: the merge, then the locator and key erase in the parent |
| RangeScan.LeafRangeVisits | src/LeafNode.cpp:127 | a leaf range query reads at least one leaf and no more than the chain holds |
| RangeScan.LeafRangeIsFilter | src/LeafNode.cpp:126-139 | on an ordered chain the scan with its early stop yields exactly the chain's entries within [lo, hi] |
| RangeScan.RangeLeaf | src/InternalNode.cpp:321-334 | the descent ends at a stored leaf |
| RangeScan.RangeVisits | src/InternalNode.cpp:322 | a range query reads at least one node |
| RangeScan.RangeIsFilter | src/InternalNode.cpp:321-334 | a range query yields, in increasing key order and within [lo, hi], exactly the filtered entries of the chain from the leaf its descent reaches |
| RangeScan.RangeVisitsCount | src/InternalNode.cpp:322-333 | a query reads one node per level above the leaves, since it descends into exactly one child, plus the leaves it scans |

## Left out

- Stream output of `range`: `RecordPtr::write_data` is foreign code, so the output is the sequence of written entries.
- Serialisation (`write`, `read`, `export_node`, `chart`) and the block files behind `load`/`dump`: persistence is a store-map update.
- `BLOCK_ACCESSES`: the process-wide counter is not modelled. `LeafRangeVisits`/`RangeVisits` return the number of increments a query makes.
- The tree root, its growth on a root split and its collapse through `single_child_ptr`: these live in the BTree driver, which is not part of this model. Only `SingleChild` is modelled.
- `max` of a missing node or an empty leaf, and the factory called on NULL_PTR: undefined in the source. `MaxIn` yields DELETE_MARKER there.
- NodeStore.Store.Delete: requires every internal node on the search path to have at least two children, all stored, with adjacent leaf children holding disjoint keys. The source needs a neighbour only when the child underflows; with one child it reads past the end.
- NodeStore.Store.Insert: requires every node on the search path to be stored with an exact shape. The source calls the factory on whatever locator it reads.
- NodeStore.Store.Delete: the contract is stated on keys. That the other keys keep their records through a merge also needs the two leaves' keys to be disjoint, which holds only for the neighbours the rebalancing reads.
- StoreState.MaxInStored: it names the leaf the max is read from, not a bound over the whole subtree. That bound needs separators ordered across the tree, which is not part of `StoreOk`.
- NodeStore.Store.MergeChild: the parent's new separator is computed before the merge, because neither merge branch reads it.
- StoreState.StoreOk: leaf chain order, separator correctness and node occupancy across the whole tree are not part of the invariant. Internal redistribution breaks separator correctness as written, so only one-level properties are proved.
- RangeScan.RangeIsFilter: it is stated relative to the leaf chain from the leaf the descent reaches, and assumes that chain is ordered. That the descent reaches the first leaf holding keys at or above lo depends on whole-tree separator correctness, which is not modelled.
- `FANOUT`, `MIN_OCCUPANCY` and `DELETE_MARKER` are defined in headers that are not part of this model. They are fixed at 4, 2 and -1.

## Findings

| source | as written | input that shows it | evidently intended | confidence | as-written member | corrected member |
|---|---|---|---|---|---|---|
| src/InternalNode.cpp:83-84 | after the routed child splits, `keys[posn]` is set and the sibling's max inserted at `posn + 1`, even when posn is the last child, which has no separator | separators [10], size 2, insert key 20: posn = 1 = `keys.size()`, so `keys[1]` is past the end | append the split child's new max as the separator before the new last child | high (not executed) | InternalLogic.LastChildSplitExample | InternalLogic.SeparatorsAfterChildSplit |
