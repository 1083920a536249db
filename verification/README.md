# cfrt in Dafny

This is a Dafny model of the core of **cfrt**, a replicated range index (an R-tree) built from conflict-free replicated data types (CRDTs). Peers exchange these structures over a peer-to-peer community. The model covers:

- **BloomFilter** (`bloom_filter.dfy`): a bit array and `k` hashed indexes per item.
  - `lookup` has no false negatives.
  - `combine` is a bitwise union.
  - The value-level `Filter` is the specification. The `BloomFilter` class over an `array<bv8>` is proved against it.
- **CrdtSet** (`crdt_set.dfy`): an observed-remove set.
  - Entries are `(value, tag)` pairs.
  - Removed tags go into a chain of Bloom filters. A new filter of twice the capacity starts once the last one is nearly full.
  - `combine` merges the filter chains. It keeps the common entries and every other entry whose tag no filter reports.
- **NaiveORSet** (`naive_or_set.dfy`): an observed-remove set with explicit insert and tombstone sets.
  - Its join is proved to be a semilattice join.
- **OptOrSet** (`opt_or_set.dfy`): an observed-remove set over `(value, replica id, clock)` entries.
  - Each replica keeps a version vector of clock intervals per replica id.
  - Interval lists are collapsed. `combine` drops an entry exactly when both sides have seen its stamp.
- **CrdtRTree** (`crdt_rtree.dfy`): the R-tree.
  - Each node holds range entries `(key_min, key_max) -> value` and the ids of its parents.
  - Nodes live in an arena (`Forest`) keyed by content id.
  - The model covers the node queries, splitting at the median boundary, merging into the closest sibling, and `do_check`'s maintenance. That maintenance drops stale parents, merges overlapping children, splits, registers the node's range in its parents, and deletes an empty node.
  - It also covers inserting, deleting and looking up point items.
- **CrdtCommunity** (`crdt_community.dfy`): the state exchange.
  - A serialised replica is cut into fragments of at most 63 KiB.
  - The receiver collects them per message id. Once all have arrived, it joins them in index order and routes the result to the main replica or to a named inner replica.
  - Only a dirty replica is broadcast.

`py_str.dfy` holds Python's string order and a stable sort by key. `wrappers.dfy` holds `Option`.

## Model

| member | source | states |
|---|---|---|
| BloomFilter.SetInByteBit | cfrt/BloomFilter.py:29-32 | Writing bit `a` of a byte leaves `v` at bit `a` and every other bit of the byte as it was |
| BloomFilter.OrBit | cfrt/BloomFilter.py:46-47 | A bit of `x \| y` is set exactly when it is set in `x` or in `y` |
| BloomFilter.BitAt | cfrt/BloomFilter.py:26-27 | `get_bit` only ever yields 0 or 1 |
| BloomFilter.WithBit | cfrt/BloomFilter.py:29-32 | `set_bit` keeps the array length, makes the bit read back as the value written, and leaves every other bit unchanged |
| BloomFilter.SetAll | cfrt/BloomFilter.py:42-43 | After setting every index, a bit is 1 exactly when it is one of the indexes or was 1 before |
| BloomFilter.OrBytes | cfrt/BloomFilter.py:46-47 | The byte-wise OR over the receiver's length sets a bit exactly when either filter has it |
| BloomFilter.IndexesFor | cfrt/BloomFilter.py:52-56 | `indexes_for` yields exactly `k` indexes, each below `m` |
| BloomFilter.Filter.Indexes | cfrt/BloomFilter.py:52-56 | A valid filter's `k` indexes all fall inside its bit array |
| BloomFilter.Empty | cfrt/BloomFilter.py:14-20 | A new filter keeps `k`, `m` and the capacity, has estimate 0 and all bits clear |
| BloomFilter.Filter.Added | cfrt/BloomFilter.py:40-43 | `add` increments the estimate, keeps sizes, makes the item reported and clears no bit |
| BloomFilter.Filter.Merged | cfrt/BloomFilter.py:45-48 | `combine` keeps sizes and validity, and a bit is set exactly when either side had it |
| BloomFilter.AddedKeepsReports | cfrt/BloomFilter.py:34-43 | No false negatives: an added item is reported, and every item reported before still is |
| BloomFilter.MergedKeepsReports | cfrt/BloomFilter.py:45-48 | An item reported by either filter is reported by their combination |
| BloomFilter.MergedWithSelf | cfrt/BloomFilter.py:45-47 | Combining a filter with itself leaves its bits unchanged |
| BloomFilter.MergedWithSelfReports | cfrt/BloomFilter.py:45-48 | A filter combined with itself reports exactly the items it reported before |
| BloomFilter.SameBitsSameReports | cfrt/BloomFilter.py:34-38 | Two filters of the same shape with the same bits report the same items |
| BloomFilter.MergedAbsorbs | cfrt/BloomFilter.py:45-48 | Combining `a ∪ b` into `b` reports exactly what `a ∪ b` reports: a second combine in the other direction adds nothing |
| BloomFilter.BloomFilter.constructor | cfrt/BloomFilter.py:14-20 | A new filter object holds the empty filter |
| BloomFilter.BloomFilter.SetBit | cfrt/BloomFilter.py:29-32 | The array afterwards is the old array with that one bit written |
| BloomFilter.BloomFilter.Lookup | cfrt/BloomFilter.py:34-38 | The loop answers true exactly when all `k` bits of the item are set |
| BloomFilter.BloomFilter.Add | cfrt/BloomFilter.py:40-43 | The object afterwards holds the old filter with the item added |
| BloomFilter.BloomFilter.Combine | cfrt/BloomFilter.py:45-48 | The object afterwards holds the old filter merged with the other |
| CrdtSet.Tombstone | cfrt/CrdtSet.py:46-48 | Recording a tag starts a filter of double capacity exactly when the last is nearly full. Afterwards the last filter reports the tag and earlier reports are kept |
| CrdtSet.TombstoneAll | cfrt/CrdtSet.py:42-48 | Tombstoning a list of removals in order: every removed tag is reported afterwards, the chain gains at most one filter per removal, the filters before the last are untouched, no report is lost, and each added filter doubles the capacity |
| CrdtSet.TombstoneGrows | cfrt/CrdtSet.py:46-48 | One more tombstone keeps the chain grown from the original one: earlier filters untouched, reports kept, capacity doubling |
| CrdtSet.TombstoneKeepsTombstoned | cfrt/CrdtSet.py:46-48 | After one more tombstone, the new tag and every tag tombstoned before are tombstoned |
| CrdtSet.RecordTombstones | cfrt/CrdtSet.py:42-48 | The loop builds exactly the chain `TombstoneAll` describes for the removals in list order |
| CrdtSet.Matching | cfrt/CrdtSet.py:41 | The list holds exactly the entries carrying the value, each once |
| CrdtSet.MatchingRemoved | cfrt/CrdtSet.py:41-44 | Taking the listed matches out of the entries leaves exactly the entries of other values; the list is non-empty exactly when some entry carries the value |
| CrdtSet.RemoveValue | cfrt/CrdtSet.py:40-48 | The matches each listed once, the entries left are those of other values (none carries the value), something was removed exactly when the value was present, and the chain is `TombstoneAll` over the matches |
| CrdtSet.CrdtSet.constructor | cfrt/CrdtSet.py:11-15 | A new set is empty and dirty, with one filter of the expected capacity |
| CrdtSet.CrdtSet.Lookup | cfrt/CrdtSet.py:30-31 | True exactly when some tag is paired with the value, which is exactly when `remove` of the value would take an entry out |
| CrdtSet.CrdtSet.Add | cfrt/CrdtSet.py:34-37 | A value already present changes nothing. Otherwise it gains a tagged entry and the set turns dirty. Either way the value is present afterwards |
| CrdtSet.CrdtSet.Remove | cfrt/CrdtSet.py:40-48 | The entries become those of other values, so the value is absent. The set turns dirty exactly when the value was present. The new chain is `TombstoneAll` of the old chain over the removed entries, each once, in some order |
| CrdtSet.MergeFilters | cfrt/CrdtSet.py:52-60 | The merged chain (`MergedChain`) is as long as the longer one. Shared positions are merged; the rest come from whichever side has them |
| CrdtSet.MergeEntries | cfrt/CrdtSet.py:62-65 | An entry survives exactly when both sides hold it, or when one side holds it and no merged filter reports its tag |
| CrdtSet.CrdtSet.Combine | cfrt/CrdtSet.py:51-68 | The new chain is `MergedChain` of the two chains and the entries are those that survive against it. The set turns dirty exactly when its entries changed |
| CrdtSet.CombineIdenticalKeepsEntries | cfrt/CrdtSet.py:62-65 | Combining identical entry sets keeps exactly those entries |
| CrdtSet.ConcurrentAddSurvives | cfrt/CrdtSet.py:62-65 | An entry only the other side has, whose tag is tombstoned nowhere, survives the combine |
| CrdtSet.RemovedStaysRemoved | cfrt/CrdtSet.py:62-65 | An entry whose tag is tombstoned never comes back through a combine |
| CrdtSet.MergedChainWithSelf | cfrt/CrdtSet.py:52-60 | Combining a chain with itself tombstones exactly the tags it tombstoned |
| CrdtSet.ChainsConverge | cfrt/CrdtSet.py:52-60 | After `a` combines `b`'s chain, `b` combining `a`'s new chain tombstones exactly the tags `a`'s chain does |
| CrdtSet.EntriesConverge | cfrt/CrdtSet.py:62-68 | When the two chains tombstone the same tags, `b` combining `a`'s combined entries keeps exactly those entries |
| CrdtSet.CombineConverges | cfrt/CrdtSet.py:51-68 | Two replicas that exchange state (`a` combines `b`, then `b` combines `a`) end with chains tombstoning the same tags and the same entries |
| NaiveORSet.JoinCommutes | cfrt/NaiveORSet.py:38-43 | combine is commutative on states |
| NaiveORSet.JoinAssociates | cfrt/NaiveORSet.py:38-43 | combine is associative |
| NaiveORSet.JoinIdempotent | cfrt/NaiveORSet.py:38-43 | combine with itself changes nothing |
| NaiveORSet.JoinIsLeastUpperBound | cfrt/NaiveORSet.py:38-43 | The join includes both sides, and any state including both includes the join |
| NaiveORSet.TombstoneIsFinal | cfrt/NaiveORSet.py:21-22 | A tombstoned entry is never live after any join |
| NaiveORSet.State.Live | cfrt/NaiveORSet.py:21-22 | The live pairs are inserted pairs that are not tombstoned, and every inserted pair is live or tombstoned |
| NaiveORSet.State.Lookup | cfrt/NaiveORSet.py:17-25 | True exactly when some live pair carries the value |
| NaiveORSet.ConcurrentAddSurvives | cfrt/NaiveORSet.py:21-25 | An entry inserted on one side and tombstoned on neither is live, and its value is found, after the join |
| NaiveORSet.NaiveORSet.constructor | cfrt/NaiveORSet.py:6-9 | A new set is empty and clean |
| NaiveORSet.NaiveORSet.Add | cfrt/NaiveORSet.py:27-30 | A value already present changes nothing. Otherwise a tagged insert is added and the set turns dirty |
| NaiveORSet.NaiveORSet.Remove | cfrt/NaiveORSet.py:32-36 | A present value gets exactly one of its live entries tombstoned and the set turns dirty. An absent one changes nothing |
| NaiveORSet.NaiveORSet.Combine | cfrt/NaiveORSet.py:38-43 | The state becomes the join. Dirty is set exactly when the other side brought something new |
| OptOrSet.IsInIntervalVector | cfrt/OptOrSet.py:5-10 | True exactly when some interval listed for the replica id contains the timestamp |
| OptOrSet.CollapseVector | cfrt/OptOrSet.py:12-16 | The backward in-place loop computes `Collapsed`, which merges each interval with the adjacent or overlapping one after it |
| OptOrSet.CollapsedKeepsCoverage | cfrt/OptOrSet.py:12-16 | Collapsing never loses a covered timestamp |
| OptOrSet.CollapsedSortedExact | cfrt/OptOrSet.py:12-16 | On a list sorted by lower bound, collapsing covers exactly the same timestamps |
| OptOrSet.StampedCoverage | cfrt/OptOrSet.py:41-50 | Appending `(c, c)`, sorting and collapsing covers the old timestamps plus `c` |
| OptOrSet.StampedSeen | cfrt/OptOrSet.py:41-50 | Stamping the own list adds exactly `(own id, c)` to what the vector has seen |
| OptOrSet.OwnListStaysOneInterval | cfrt/OptOrSet.py:41-50 | A replica's own list stays the single interval `(1, clock)` |
| OptOrSet.UnsortedCollapseWidens | cfrt/OptOrSet.py:84-85 | Collapsing a concatenation that is not sorted can cover timestamps neither part covered |
| OptOrSet.WithoutValue | cfrt/OptOrSet.py:53-57 | The loop keeps exactly the entries of other values, and reports whether any went |
| OptOrSet.MergeEntries | cfrt/OptOrSet.py:69-76 | An entry survives when both sides hold it, or when one side holds it and not both vectors have seen its stamp |
| OptOrSet.MergeVectors | cfrt/OptOrSet.py:77-85 | The loop yields `MergedVector`: the ids of both sides, each mapped to the collapse of the two lists concatenated |
| OptOrSet.MergedVectorIs | cfrt/OptOrSet.py:77-85 | A vector holding the ids of both sides, each with its collapsed concatenation, is `MergedVector` |
| OptOrSet.MergedVectorKeepsSeen | cfrt/OptOrSet.py:77-85 | Whatever either vector had seen, the merged vector has seen |
| OptOrSet.EntriesConverge | cfrt/OptOrSet.py:68-76 | When each replica has seen the stamps of its own entries, `b` combining `a`'s combined state keeps exactly `a`'s combined entries |
| OptOrSet.SingleIntervalsMerge | cfrt/OptOrSet.py:77-85 | Merging vectors whose lists are all single intervals `(1, n)` gives, per id, `(1, larger n)` |
| OptOrSet.SingleIntervalsClosed | cfrt/OptOrSet.py:77-85 | Merging single-interval vectors gives a single-interval vector |
| OptOrSet.ConvergeAt | cfrt/OptOrSet.py:77-85 | Per id: `b` merging `a`'s merged vector gets `a`'s list for that id |
| OptOrSet.VectorsConverge | cfrt/OptOrSet.py:77-85 | For single-interval vectors, `b` merging `a`'s merged vector gets exactly `a`'s merged vector |
| OptOrSet.IdempotentAt | cfrt/OptOrSet.py:77-85 | Per id: a single-interval vector merged with itself keeps that id's list |
| OptOrSet.VectorMergeIdempotent | cfrt/OptOrSet.py:77-85 | A single-interval vector merged with itself is unchanged |
| OptOrSet.CombineConverges | cfrt/OptOrSet.py:68-85 | After `a` combines `b` and `b` combines `a`'s result: `a` has seen its entries' stamps, both hold the same entries, and for single-interval vectors both hold the same vector |
| OptOrSet.OptORSet.constructor | cfrt/OptOrSet.py:19-23 | A new set is empty and clean, with an empty vector, the given id and clock 0. It has seen the stamp of every entry |
| OptOrSet.OptORSet.Lookup | cfrt/OptOrSet.py:35-39 | True exactly when some entry carries the value |
| OptOrSet.OptORSet.Tick | cfrt/OptOrSet.py:42-49 | The clock advances by one, and the vector has seen exactly one more stamp: its own id at the new clock |
| OptOrSet.OptORSet.Add | cfrt/OptOrSet.py:41-50 | The entry is stamped with the own id and new clock. The vector records that stamp and the set turns dirty. Every entry's stamp stays seen |
| OptOrSet.OptORSet.Remove | cfrt/OptOrSet.py:52-66 | Every entry of the value goes. When one did, the clock advances, the vector records it and the set turns dirty; otherwise nothing changes. Every entry's stamp stays seen |
| OptOrSet.OptORSet.Combine | cfrt/OptOrSet.py:68-85 | Entries become the merge above and the vector `MergedVector`; nothing seen is forgotten, and when both sides had seen their entries' stamps, so has the result. The set turns dirty exactly when entries changed |
| OptOrSet.OptORSet.Whitewash | cfrt/OptOrSet.py:87-89 | A new id and clock 0, with everything else kept, so every entry's stamp stays seen |
| CrdtRTree.CommonPrefix | cfrt/CrdtRTree.py:5-10 | The result is a common prefix length of both strings, and the next characters differ |
| CrdtRTree.CommonPrefixUnique | cfrt/CrdtRTree.py:5-10 | Any length with that property is the common prefix length |
| CrdtRTree.PrefixCount | cfrt/CrdtRTree.py:5-10 | The loop returns the common prefix length |
| CrdtRTree.Score | cfrt/CrdtRTree.py:12-17 | A score exists exactly when the prefix ends before both strings do. It lies in `[2^(p+8), 2^(p+8)+256)` |
| CrdtRTree.ScoreOrdersByPrefix | cfrt/CrdtRTree.py:12-17 | A longer common prefix always scores higher |
| CrdtRTree.WeightedPrefixScore | cfrt/CrdtRTree.py:12-17 | The loop computes `Score` |
| CrdtRTree.ClosenessOf | cfrt/CrdtRTree.py:215-218 | The largest of the four prefix counts between the range ends and the entry's keys |
| CrdtRTree.ComputeRange | cfrt/CrdtRTree.py:114-122 | Each end is taken from some entry, and the first entry visited seeds it. A real low end is at most every real key_min, and a real high end at least every real key_max. A "None" end is kept only when every real key sorts after "None" (low) or before it (high). An empty node gives `("None", "None")` |
| CrdtRTree.RangeIsDetermined | cfrt/CrdtRTree.py:114-122 | When no key is "None", the range does not depend on visiting order |
| CrdtRTree.ComputeChildren | cfrt/CrdtRTree.py:124-129 | The ids of the non-leaf entries, each listed once |
| CrdtRTree.IsLeafNode | cfrt/CrdtRTree.py:105-109 | True exactly when every entry is a point entry |
| CrdtRTree.PointEntryCoversOneKey | cfrt/CrdtRTree.py:60-62 | `is_leaf` holds exactly when the entry's range contains one real key and no other |
| CrdtRTree.FindPoint | cfrt/CrdtRTree.py:316-318 | A value is found exactly when a point entry for the key exists, and it is that entry's value |
| CrdtRTree.CollectBoundaries | cfrt/CrdtRTree.py:234-239 | The distinct keys other than "None", each listed once |
| CrdtRTree.Boundaries | cfrt/CrdtRTree.py:234-240 | The boundary keys, strictly sorted and each present once |
| CrdtRTree.Side | cfrt/CrdtRTree.py:250-262 | The side split sends one entry to, against the median |
| CrdtRTree.Partition | cfrt/CrdtRTree.py:248-262 | Left and right are exactly the entries on each side of the median |
| CrdtRTree.Sample | cfrt/CrdtRTree.py:266 | A subset of exactly the requested size |
| CrdtRTree.SortedMedian | cfrt/CrdtRTree.py:240-246 | In the strictly sorted boundary list, the element at `len >> 1` is the median: exactly half the boundaries, rounded down, sort before it |
| CrdtRTree.MedianBelow | cfrt/CrdtRTree.py:246 | A boundary sorting before another has strictly fewer boundaries before it |
| CrdtRTree.MedianUnique | cfrt/CrdtRTree.py:246 | The median boundary is unique |
| CrdtRTree.ChooseRight | cfrt/CrdtRTree.py:234-267 | There is no split exactly when there are fewer than two boundaries. Otherwise the cut is at the median: the right side is every entry not left of it, or, when that leaves a side empty, the left keeps a sample of half the split threshold |
| CrdtRTree.DisjointAsWrittenOnlyRejectsTouching | cfrt/CrdtRTree.py:157 | The test as written calls two children disjoint unless left ends exactly where right begins |
| CrdtRTree.DisjointAsWrittenMissesOverlap | cfrt/CrdtRTree.py:157 | Two children sharing key "d" pass the test as written as disjoint |
| CrdtRTree.DisjointMeansNoSharedKey | cfrt/CrdtRTree.py:157 | Corrected test: disjoint children share no key, and overlapping ones in key_min order share right's first key |
| CrdtRTree.MoveAll | cfrt/CrdtRTree.py:282-287 | The loop over the moved entries yields `Moved` |
| CrdtRTree.MovedPartitions | cfrt/CrdtRTree.py:282-287 | Split's move cuts the node's entries into two disjoint parts that together are the original |
| CrdtRTree.MovedRewiresChildren | cfrt/CrdtRTree.py:225-229 | Every moved child gets the new parent and loses the old one |
| CrdtRTree.MovedKeepsParents | cfrt/CrdtRTree.py:282-287 | No node loses a parent other than the one moved away from |
| CrdtRTree.MovedLeavesOthers | cfrt/CrdtRTree.py:282-287 | Nodes other than the two ends keep their entries, and are untouched unless a moved entry points at them |
| CrdtRTree.KeptParents | cfrt/CrdtRTree.py:138-141 | The loop keeps exactly the parents that exist and list the node as a child |
| CrdtRTree.Forest.constructor | cfrt/CrdtRTree.py:66-73 | The arena holds one empty root node under the first drawn id |
| CrdtRTree.Forest.NewNode | cfrt/CrdtRTree.py:66-73 | A new empty node under a fresh, never-used id, with the drawn thresholds |
| CrdtRTree.Forest.Check | cfrt/CrdtRTree.py:131-132 | Only the node's check flag changes |
| CrdtRTree.Forest.RemoveValues | cfrt/CrdtRTree.py:100-103 | Only that node changes, losing exactly the entries with that value |
| CrdtRTree.Forest.Delete | cfrt/CrdtRTree.py:186-190 | Every parent drops its entries for the node, and the node loses all its parents. Nothing else changes |
| CrdtRTree.Forest.MoveEntries | cfrt/CrdtRTree.py:282-287 | The arena becomes `Moved` of the old arena |
| CrdtRTree.Forest.BestOf | cfrt/CrdtRTree.py:207-219 | The closest entry not pointing at the node, or the current candidate if nothing is closer |
| CrdtRTree.Forest.SelectSibling | cfrt/CrdtRTree.py:205-221 | No sibling exactly when no parent lists another entry. Otherwise a closest such entry |
| CrdtRTree.Forest.Merge | cfrt/CrdtRTree.py:193-230 | A root with one inner entry makes that child the root and drops the old root from the child's parents. Any other root is untouched |
| CrdtRTree.Forest.SplitOff | cfrt/CrdtRTree.py:232-287 | No split exactly when there are fewer than two boundaries. Otherwise a new sibling takes the entries cut off at the median boundary (the two parts partition the entries) and inherits the parents, and its children point at it. A root first gets a new root parent |
| CrdtRTree.Forest.Stage | cfrt/CrdtRTree.py:269-280 | A new empty sibling with the node's parents. A parentless node first gets a new empty root as its parent |
| CrdtRTree.Forest.Split | cfrt/CrdtRTree.py:232-290 | Arena validity holds and no node disappears |
| CrdtRTree.Forest.DropStaleParents | cfrt/CrdtRTree.py:137-141 | With several parents, only the listing ones are kept. Otherwise nothing changes |
| CrdtRTree.Forest.ResolveOverlaps | cfrt/CrdtRTree.py:148-170 | Arena validity holds and no node disappears |
| CrdtRTree.Forest.RegisterInParents | cfrt/CrdtRTree.py:175-181 | Each parent lacking the exact current range entry has its entries for the node replaced by that entry. Nothing else changes |
| CrdtRTree.Forest.DoCheck | cfrt/CrdtRTree.py:134-184 | Arena validity holds and no node disappears; an unknown id changes nothing. A small root has its flag cleared and, with one inner entry, hands the root to that child. A mid-sized leaf node has its flag cleared, keeps only its listing parents when it had several, and is registered in every parent under its current range |
| CrdtRTree.Forest.BestFit | cfrt/CrdtRTree.py:296-299 | A container with the greatest prefix fit to the key |
| CrdtRTree.Forest.AddLeafItem | cfrt/CrdtRTree.py:292-301 | No entry or parent is lost anywhere and the node is marked for checking. At a leaf node the point entry is added and can then be found |
| CrdtRTree.Forest.DelLeafItem | cfrt/CrdtRTree.py:303-312 | No entry is gained anywhere and the node is marked for checking. At a leaf node exactly the point entries for the key go and the key is no longer found |
| CrdtRTree.Forest.DropPoints | cfrt/CrdtRTree.py:304-307 | Only that node changes, losing exactly its point entries for the key |
| CrdtRTree.Forest.DelInChildren | cfrt/CrdtRTree.py:309-311 | No entry is gained and no parent changes anywhere |
| CrdtRTree.Forest.QueryLeafItem | cfrt/CrdtRTree.py:314-326 | At a leaf node, found exactly when a point entry exists, and the value found is that node's point entry for the key. Anything found is a point entry of some node |
| CrdtCommunity.FragmentCount | cfrt/CrdtCommunity.py:76 | The count is the buffer length divided by the fragment size, rounded up |
| CrdtCommunity.Slice | cfrt/CrdtCommunity.py:82-84 | Every fragment is non-empty and at most 63 KiB |
| CrdtCommunity.SendState | cfrt/CrdtCommunity.py:74-84 | One message per fragment, indexed from 0, all with the same id, TTL 1, the count and the replica id (empty when none) |
| CrdtCommunity.FragmentsFit | cfrt/CrdtCommunity.py:74-84 | All fragments fit the limit and carry the id and count. Their number is the fewest that hold the buffer |
| CrdtCommunity.FragmentsJoin | cfrt/CrdtCommunity.py:74-84 | Joining the fragments in index order gives back the buffer |
| CrdtCommunity.SortByIndex | cfrt/CrdtCommunity.py:105 | The fragment list sorted by index is a permutation of the list |
| CrdtCommunity.SortedIsIdentity | cfrt/CrdtCommunity.py:105 | Sorting a complete set of fragments puts them in send order |
| CrdtCommunity.ReceiveCompletes | cfrt/CrdtCommunity.py:98-104 | A fragment completes a message exactly when it brings the stored count to the total. A complete message leaves the store, and other ids are untouched |
| CrdtCommunity.RunCollects | cfrt/CrdtCommunity.py:98-104 | Before the last fragment, each arrival yields nothing and the store holds the arrivals so far |
| CrdtCommunity.SingleFragment | cfrt/CrdtCommunity.py:109-110 | A one-fragment message is its own buffer and leaves the store alone |
| CrdtCommunity.RoundTrip | cfrt/CrdtCommunity.py:95-110 | Every fragment delivered once, in any order: only the last arrival yields a buffer, it is the buffer sent, and the store ends as it began |
| CrdtCommunity.JoinBlobs | cfrt/CrdtCommunity.py:106-108 | The loop joins the blobs in list order |
| CrdtCommunity.Receive | cfrt/CrdtCommunity.py:98-110 | A fragment that yields no buffer belongs to a multi-fragment message, and the store then holds a list for its id whose length is not the total |
| CrdtCommunity.SendToPeers | cfrt/CrdtCommunity.py:69-70 | Each peer gets a full fragment sequence of the buffer under its own message id |
| CrdtCommunity.Community.constructor | cfrt/CrdtCommunity.py:46-58 | The given replica, or a new empty one. No inner replicas and no pending fragments |
| CrdtCommunity.Community.BroadcastState | cfrt/CrdtCommunity.py:60-71 | A clean replica sends nothing. A dirty one sends its fragments to every peer and becomes clean. Its contents are unchanged |
| CrdtCommunity.Community.Reassemble | cfrt/CrdtCommunity.py:95-110 | The store and the buffer follow `Receive` |
| CrdtCommunity.Community.TargetFor | cfrt/CrdtCommunity.py:131-139 | An empty id routes to the main replica and a known id to its replica. An unknown id gets a new empty replica, registered under that id |
| CrdtCommunity.Community.OnState | cfrt/CrdtCommunity.py:95-139 | A complete buffer is routed as above. An incomplete one routes nowhere and leaves the inner replicas alone |

## Left out

- md5, the logarithmic sizing of `k` and `m`, and the floating-point `estimate_size` are parameters (`BloomFilter.Hashing`). `K = 27` is the value the sizing formula gives. The `print` on overflow in `combine` is not modelled.
- BloomFilter.BloomFilter.Combine: requires the other filter's array to be at least as long. The source would fail with an index error otherwise.
- The random tags, replica ids, content ids, thresholds and message ids are parameters, or come from the `Forest` draw function. The ranges `randint` draws from are not enforced.
- CrdtRTree.Sample: `random.sample` is modelled as any subset of the right size.
- CrdtSet keeps its Bloom filters by value, so the aliasing that `combine` creates when it appends the other set's filter object is not modelled. `whitewash` and `__str__`/`__iter__` have no member. `whitewash` is a no-op.
- An R-tree node's inner CrdtSet is modelled as two plain sets: entries and parent ids. Its tags and tombstones are not modelled, so a node's own state does not go through a CrdtSet combine.
- The mutual recursion of `do_check`, `merge` and `split` is bounded by `fuel`. When fuel runs out, the nested `do_check` is replaced by `check()`, which defers it to whoever drains the check flags.
- A call on a node id the arena does not hold does nothing. The source would fail on `None` there.
- CrdtRTree.Forest.DoCheck: the paths through an inner node's overlap merging, a split, a merge into a sibling, and the delete of an emptied node are stated only as validity and no node disappearing. Their steps carry the contracts: DropStaleParents, Merge, SplitOff, RegisterInParents and Delete.
- CrdtRTree.Forest.ResolveOverlaps: states only validity. The loop uses the overlap test as written (see Findings), so overlapping children can stay unmerged.
- CrdtRTree.Forest.Split: states only validity. SplitOff states the split itself.
- CrdtRTree.Forest.Merge: the case that moves entries into a sibling is stated only through Delete and MoveEntries, not in Merge's own contract.
- CrdtRTree.Forest.DelInChildren: states only that entries are never gained and parents never change.
- CrdtRTree.Forest.AddLeafItem: at an inner node the item is placed only if fuel remains, and the contract promises placement only at a leaf node.
- CrdtRTree.Forest.QueryLeafItem: at an inner node it promises only that any value found belongs to a point entry somewhere.
- CrdtRTree.Score: a prefix that reaches the end of either string yields `None`. The source raises an index error there.
- `query_leaf_item_async`, `get_async`, debugging output, `all_items` and the split and merge counters are not modelled.
- OptOrSet.VectorsConverge: assumes every list is one interval `(1, n)`. The class does not carry that as an invariant, because a combine can bring in any list another replica sent.
- CrdtSet.ChainsConverge and CrdtSet.CombineConverges: assume filters at the same position have the same `k` and `m` on both replicas (`SameShapes`). Position n always has capacity 2000·2^n, but the sizing formula is a parameter here.
- OptOrSet.OptORSet.Combine: concatenates the two interval lists without sorting before collapsing, as the source does. `UnsortedCollapseWidens` shows that this can widen coverage on unsorted input. Every list a replica writes is the single interval `(1, clock)`, so the model keeps the code as written.
- The UTF-8 encoding of replica ids is not modelled: ids stay strings.
- CrdtCommunity: the following are not modelled: pickle serialisation, peers and the network, message signatures, the chaos-monkey drop, timing statistics, `on_request`, `get` and its futures, and the Tribler community plumbing. The serialised buffer is an input. OnState stops where the source unpickles the buffer and calls `target.combine`, which CrdtSet.CrdtSet.Combine models.
- CrdtCommunity.Community.BroadcastState: requires a named inner replica to exist. The source raises `KeyError` otherwise.

## Findings

| source | as written | input that shows it | evidently intended | confidence | as-written member | corrected member |
|---|---|---|---|---|---|---|
| cfrt/CrdtRTree.py:157 | `left.key_max < right.key_min or right.key_min < left.key_max` treats children as disjoint unless left ends exactly where right begins | children `("a","m")` and `("c","z")` both contain `"d"`, yet the test calls them disjoint, so the overlap is never merged | `left.key_max < right.key_min`: only then are the children disjoint | not executed | CrdtRTree.DisjointAsWrittenMissesOverlap | CrdtRTree.DisjointMeansNoSharedKey |
