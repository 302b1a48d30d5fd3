# A verified model of the TDengine chained hash table (`thash.c`)

`source/util/src/thash.c` is the general-purpose hash table of TDengine. A table is a
directory of `capacity` slots. Each slot (an `SHashEntry`) heads a singly linked chain
of nodes and counts them in `num`. A node (`SHashNode`) carries:

- a copy of the key and of the value;
- the cached 32-bit hash of the key;
- a reference count;
- a `removed` flag.

Keys are compared with `memcmp`. A key's slot is its hash masked with `capacity - 1`.

The operations:

- **Put** puts a new node in front of its chain. When the key is already there, the
  new node either replaces the old one (when updates are enabled) or is discarded.
- **Remove** marks every live node with the key. A marked node whose last reference
  goes is unlinked.
- **Lookups** (`Get`, `GetDup`, `GetDup_m`, `Acquire`) return the first live node with
  the key. They can copy its value into a buffer the caller supplies or has allocated,
  and can take a reference on it.
- **Iteration** walks the chains slot by slot. The node it returns is pinned by one
  reference, which the next step or `CancelIterate`/`Release` gives back. A removed node
  is unlinked only once that reference is gone.
- **Resize**: the directory doubles once the table holds `0.75 * capacity` nodes, up to
  2^24 slots. Each chain is then split between its slot and the slot `capacity` further
  on.

The model is the table run without locks (`HASH_NO_LOCK`), so every operation is the
sequential algorithm of the source.

- `hash_types.dfy` (module `HashTypes`): machine integers, nodes and entries,
  `HASH_INDEX`, the 16-bit reference-count arithmetic, the `int32_t` cast and `memcpy`.
- `chains.dfy` (module `Chains`): a chain is a sequence of node addresses. This module
  has:
  - the searches along a chain (first match, first live node, position of a node);
  - the bucket scan of iteration;
  - what unlinking, pushing and splicing do to a chain and to the links that describe it.
- `remove_spec.dfy` (module `RemoveSpec`): `RemoveScan`, the reference definition of the
  removal loop, with lemmas on its result:
  - which nodes get marked and which stay linked, in order;
  - the result code;
  - afterwards the key is gone and other keys are untouched.
- `resize.dfy` (module `Resize`): `Rehash`, the reference definition of the chains after
  the directory doubles, with lemmas:
  - every node lands in the slot its hash selects;
  - the same nodes stay linked;
  - the count is unchanged;
  - when a key has one live node, the lookup after the resize stops where it did before.
- `thash.dfy` (module `THash`): the class `HashTable`. It is imperative, like the
  source:
  - `buckets` is the directory;
  - `nodes` is the node heap, where an address is an index;
  - `nexts` holds the `next` links;
  - `size` and `capacity` are the counters;
  - the ghost `chains` is the abstraction the links describe.

  Every operation of the source is a method with loops. Its `ensures` ties the new state
  to the functions above. The invariant `Valid()` says:
  - the links describe the chains;
  - no node is linked twice;
  - every node sits in the slot its hash selects;
  - `size` counts the linked nodes;
  - the capacity is a power of two between 4 and 2^24.

  `Find(key)` is the lookup used to state what operations do to every key.
- `iterate.dfy` (module `Iteration`): the order of a walk with `taosHashIterate`. This
  is the live nodes slot by slot, each chain in its own order. Lemmas:
  - the first call goes for the head of the order;
  - a call with the j-th node as cursor goes for the (j + 1)-th, or NULL after the last;
  - releasing the cursor and pinning the next node leave the order unchanged;
  - the order holds every live linked node exactly once.
- `findings.dfy` (module `Findings`): the two discrepancies listed under Findings. Each
  has the code as written on a concrete table, and a corrected definition with the
  intended property proved about it.

The hash function is a parameter of `Init` (a Dafny function value). The success of
`calloc`/`realloc` in a lookup is a boolean parameter (`allocOk`). `terrno` goes in and
out as an `Errno` value.

## Model

| member | source | states |
|---|---|---|
| HashTypes.HashIndex | source/util/src/thash.c:26 | the slot index of a hash is below the capacity |
| HashTypes.MaxCapacityIsPow2 | source/util/src/thash.c:24 | HASH_MAX_CAPACITY (16M) is a power of two, so doubling up to it keeps the mask a remainder |
| HashTypes.Inc16 | source/util/src/thash.c:451 | the 16-bit reference increment adds one and wraps from 65535 to 0 |
| HashTypes.Dec16 | source/util/src/thash.c:754 | the reference decrement subtracts one and wraps from 0 to 65535 |
| HashTypes.ToInt32 | source/util/src/thash.c:295 | the (int32_t) cast keeps values below 2^31, lies in the int32 range and is congruent to its argument mod 2^32 |
| HashTypes.CopyInto | source/util/src/thash.c:455 | memcpy of n bytes: the first n bytes become the source's, the rest of the destination is kept |
| Chains.FirstMatch | source/util/src/thash.c:133-147 | the search stops at the first node with the key that is not removed, no earlier node matches, and it reports the end when none does |
| Chains.FirstLive | source/util/src/thash.c:747-752 | the skip past removed nodes stops at the first live node at or after the start, every node passed is removed |
| Chains.IndexOf | source/util/src/thash.c:738-745 | the walk to a node stops at its first occurrence |
| Chains.ScanBuckets | source/util/src/thash.c:794-808 | the bucket scan returns a live node of a slot at or after the start, or nothing |
| Chains.ScanBucketsFirst | source/util/src/thash.c:794-808 | the node the bucket scan returns is the first live one: every node before it in its chain, and every node of the slots it passed, is removed |
| Chains.Splice | source/util/src/thash.c:180-193 | the new node takes the old one's position, with the prefix kept; the chain keeps its length when the old node goes, and grows by one when it stays |
| Chains.FirstMatchFrame | source/util/src/thash.c:133-147 | the search depends only on which nodes of the chain match |
| Chains.ScanBucketsFrame | source/util/src/thash.c:794-808 | the bucket scan depends only on the chains it visits and the removed flags |
| Chains.DeleteUnmatched | source/util/src/thash.c:755-765 | unlinking a node that does not match a key leaves that key's lookup on the same node |
| Chains.FirstMatchIs | source/util/src/thash.c:133-147 | a position with the key, no match before it, is the search result (the characterization of the search) |
| RemoveSpec.RemoveScan | source/util/src/thash.c:495-520 | the removal scan of one chain leaves a heap of the same size |
| RemoveSpec.RemoveScanNodes | source/util/src/thash.c:499-502 | exactly the live nodes of the chain with the key lose a reference and are marked removed; no other node changes |
| RemoveSpec.RemoveScanKept | source/util/src/thash.c:502-516 | the nodes left linked are exactly the chain's nodes the scan does not unlink (a match whose count reaches 0), each once |
| RemoveSpec.RemoveScanKeptOrder | source/util/src/thash.c:502-519 | the nodes left linked are the chain with the unlinked nodes taken out, in chain order |
| RemoveSpec.RemoveScanFound | source/util/src/thash.c:494-500 | the result is "found" exactly when the chain holds a live node with the key |
| RemoveSpec.RemoveScanClears | source/util/src/thash.c:495-520 | after the scan no node left in the chain has the key and is live |
| RemoveSpec.RemoveScanOtherKey | source/util/src/thash.c:495-520 | a lookup of any other key in the chain finds the same node before and after the scan |
| RemoveSpec.FirstMatchOfSubseq | source/util/src/thash.c:503-515 | taking out nodes with one key never moves the first match of another key |
| Resize.Rehash | source/util/src/thash.c:640-672 | the chains after the split form a directory of twice the slots |
| Resize.SplitIndex | source/util/src/thash.c:656 | with twice the slots, a hash lands in its old slot or capacity slots further on |
| Resize.RehashPlaced | source/util/src/thash.c:656-667 | after the resize every node sits in the slot its hash selects in the doubled directory |
| Resize.RehashMembers | source/util/src/thash.c:655-671 | a node is linked in its new slot after the resize exactly when it was linked in its old slot before |
| Resize.RehashTotal | source/util/src/thash.c:659-667 | the resize links as many nodes as before, so size stays right |
| Resize.RehashFrame | source/util/src/thash.c:656 | the resize depends only on the cached hashes |
| THash.Capacity | source/util/src/thash.c:124-130 | the slot count is a power of two from 4 to 2^24, at least min(length, 2^24), and the smallest such doubling of 4 |
| THash.GrownChains | source/util/src/thash.c:310-314 | the chains a put starts from span the capacity the resize leaves |
| THash.PutPlaced | source/util/src/thash.c:319-348 | giving a slot a chain of its old nodes and a new node that hashes there keeps every node in its slot |
| THash.SpliceFound | source/util/src/thash.c:176-193 | after the update's splice the new node is the first match, whatever happens to the node it replaces |
| THash.DeleteKeeps | source/util/src/thash.c:503-515 | unlinking one node of a chain keeps every node in its slot, links no node twice and links one node fewer |
| THash.ReplaceKeeps | source/util/src/thash.c:176-193 | the update's splice keeps every node in its slot, links no node twice, counts the nodes it links, and makes the new node the key's first match |
| THash.RemoveKeepsOthers | source/util/src/thash.c:478-520 | removing a key leaves the lookup of every other key, in every slot, where it was |
| THash.GetCopy | source/util/src/thash.c:430-456 | the end of GetImpl: nothing found changes nothing; a found node is returned whenever its allocation succeeds or none is needed; a found value is copied into the buffer, which holds at least dataLen bytes, and *size (unsigned) covers dataLen; only a failed allocation sets terrno, and then returns NULL with the buffer untouched |
| THash.CopyValue | source/util/src/thash.c:430-456 | the allocation and copy code computes what GetCopy describes |
| THash.ReleaseOf | source/util/src/thash.c:729-771 | release changes only the released node, returns a live node or NULL, and changes nothing when the node is not in its slot's chain |
| THash.ReleaseKeepsLookup | source/util/src/thash.c:754-765 | the release's new reference count, and unlinking a removed node, change no key's lookup |
| THash.ScanAfterRelease | source/util/src/thash.c:784-808 | the release leaves the slots after the node's own untouched, so the iteration scan from there finds the same node |
| THash.AcquireRelease | source/util/src/thash.c:855-860 | an acquire followed by a release restores the node's reference count; the chains and size stay when the count was not 0 |
| THash.HashTable.Find | source/util/src/thash.c:133-147 | the node a lookup of a key finds has the key and is live |
| THash.HashTable.constructor | source/util/src/thash.c:231-276 | a valid empty table of the given power-of-two capacity with all entries empty |
| THash.HashTable.Init | source/util/src/thash.c:221-277 | no table without a hash function; otherwise a valid empty table whose capacity rounds the (int32_t) hint (0 meaning 4) up as taosHashCapacity does |
| THash.HashTable.GetSize | source/util/src/thash.c:291-296 | the size counter as an int32_t, equal to it below 2^31 |
| THash.HashTable.GetMemSize | source/util/src/thash.c:711-717 | the memory estimate in 64-bit size_t arithmetic, equal to capacity*(entry+pointer) + node*size + table when nothing overflows |
| THash.HashTable.SearchInEntryList | source/util/src/thash.c:133-147 | the loop returns the first live node of the slot's chain with the key, or NULL |
| THash.HashTable.SearchWithPrev | source/util/src/thash.c:333-344 | put's search loop stops at the first match and keeps the node before it |
| THash.HashTable.SkipRemoved | source/util/src/thash.c:748-752 | the walk ends at the first live node at or after its start |
| THash.HashTable.PushFrontNodeInEntryList | source/util/src/thash.c:702-709 | the node becomes the chain's head, its link is the old head, num grows by one |
| THash.HashTable.UnlinkNode | source/util/src/thash.c:503-512 | the node leaves the chain through the entry or its predecessor, num drops by one |
| THash.HashTable.MoveNode | source/util/src/thash.c:659-667 | the node is taken out of its chain and pushed at the head of its new slot |
| THash.HashTable.RelinkOne | source/util/src/thash.c:656-671 | one turn of the split: a node whose new index is its slot stays and becomes prev, any other moves |
| THash.HashTable.RelinkBucket | source/util/src/thash.c:651-672 | a chain's staying nodes keep their order; the moving ones go in front of the partner slot in reverse order |
| THash.HashTable.ResizeSlot | source/util/src/thash.c:640-673 | one turn of the outer loop advances the directory one slot toward the Rehash result |
| THash.HashTable.TableResize | source/util/src/thash.c:609-679 | below the load factor or at the maximum nothing changes; otherwise the capacity doubles and the chains become Rehash; the invariant and the size are kept |
| THash.HashTable.DoUpdateHashNode | source/util/src/thash.c:176-194 | the new node takes the old one's place and the old one loses a reference; at 0 it is unlinked, otherwise it stays behind the new node and size grows by one |
| THash.HashTable.AddNode | source/util/src/thash.c:681-699 | the heap gains one unlinked node and nothing else changes |
| THash.HashTable.AddAndGrow | source/util/src/thash.c:304-314 | the new node is made and the table is resized as the load factor demands, keeping the invariant |
| THash.HashTable.PutAbsent | source/util/src/thash.c:346-358 | an absent key's node goes in front of its chain, size grows by one, and the key is found at the new node |
| THash.HashTable.PutReplace | source/util/src/thash.c:358-361 | with updates on, the new node replaces the match as doUpdateHashNode does, and a lookup finds the new node |
| THash.HashTable.Put | source/util/src/thash.c:298-372 | -1 and no change for a NULL or empty key; otherwise a resize first, then insert (0), replace (0) or discard (-1); after 0 the key is found at the new node |
| THash.HashTable.MarkRemoved | source/util/src/thash.c:500-501 | a match loses a reference and is marked removed; the links stay |
| THash.HashTable.DropNode | source/util/src/thash.c:503-515 | a node with no reference left is unlinked and size drops by one |
| THash.HashTable.RemoveSkip | source/util/src/thash.c:517-519 | a node that does not match is kept and becomes prev |
| THash.HashTable.RemoveDrop | source/util/src/thash.c:503-515 | the unlinked match leaves the chain and the walk goes on with its successor, as the corrected loop of Finding B does |
| THash.HashTable.RemoveMatch | source/util/src/thash.c:496-516 | a match is marked; unlinked with its value copied when its count reaches 0, otherwise revisited as a removed node |
| THash.HashTable.RemoveVisit | source/util/src/thash.c:495-520 | one turn of the removal loop keeps the scan state in step with RemoveScan |
| THash.HashTable.RemoveInSlot | source/util/src/thash.c:490-520 | the loop over the slot's chain leaves the heap, chain, buffer and code RemoveScan gives, and size drops by the nodes unlinked |
| THash.HashTable.RemoveLoop | source/util/src/thash.c:495-520 | the loop runs to the end of the chain, keeping the scan state in step with RemoveScan and the other slots unchanged |
| THash.HashTable.RemoveFinish | source/util/src/thash.c:495-520 | at the end of the chain the heap, the chain, the buffer, the found flag and the size are those of RemoveScan on the whole chain |
| THash.HashTable.RemoveWithData | source/util/src/thash.c:467-526 | -1 and no change on an empty table or a bad key; otherwise the slot is scanned as RemoveScan says; afterwards the key is found nowhere and every other key is found where it was |
| THash.HashTable.Remove | source/util/src/thash.c:528-530 | removal without a buffer, with the same outcome |
| THash.HashTable.FindExact | source/util/src/thash.c:133-147 | a lookup finds nothing exactly when no linked node in any slot has the key and is live; what it finds is in the key's slot |
| THash.HashTable.SizeIsSumOfNums | source/util/src/thash.c:346-355 | each entry's num is its chain's length and the size counter is the sum of the nums |
| THash.HashTable.SearchKey | source/util/src/thash.c:395-421 | NULL on an empty table, a bad key or an empty slot; otherwise the lookup of the key |
| THash.HashTable.Lookup | source/util/src/thash.c:394-458 | the search followed by the allocation and copy of GetCopy |
| THash.HashTable.GetImpl | source/util/src/thash.c:394-465 | the lookup result; with addRef the node found gains a 16-bit reference; no chain and no key's lookup changes |
| THash.HashTable.Get | source/util/src/thash.c:376-379 | the node the lookup finds, with no copy |
| THash.HashTable.GetDup | source/util/src/thash.c:381-385 | returns 0; the value found, when there is one, is copied into the destination buffer |
| THash.HashTable.GetDupM | source/util/src/thash.c:387-392 | returns terrno, which only a failed allocation sets, together with the lookup's buffer and size |
| THash.HashTable.Acquire | source/util/src/thash.c:855-858 | the node a lookup finds, which gains one reference; the chains do not change |
| THash.HashTable.ClearSlot | source/util/src/thash.c:539-560 | the slot's entry and chain are emptied |
| THash.HashTable.Clear | source/util/src/thash.c:532-564 | every slot is empty, size is 0, the capacity stays, and no key is found |
| THash.HashTable.SetRefCount | source/util/src/thash.c:754 | rewriting a reference count changes no key's lookup |
| THash.HashTable.LocateNode | source/util/src/thash.c:738-745 | the walk stops at the node, with its predecessor, or at NULL when the node is not in the chain |
| THash.HashTable.ReleaseNode | source/util/src/thash.c:729-771 | the release ReleaseOf describes, in the slot the node's hash selects; releasing a removed node, or one that keeps a reference, changes no lookup |
| THash.HashTable.ScanFrom | source/util/src/thash.c:793-809 | the bucket loop finds the first live node from the given slot on |
| THash.HashTable.PinNode | source/util/src/thash.c:811-833 | the returned node gains one reference, rolled back with NULL when the 16-bit count overflows |
| THash.IterTarget | source/util/src/thash.c:783-809 | the node iteration moves to is live: behind the cursor in its chain, or else in a later slot |
| THash.HashTable.Advance | source/util/src/thash.c:783-809 | the cursor is released as ReleaseOf says and the next live node is found |
| THash.HashTable.ReleaseAndNext | source/util/src/thash.c:784-809 | the cursor is released as ReleaseOf says; the result is the live node behind it in its chain, or else the first live node of the later slots |
| THash.HashTable.Iterate | source/util/src/thash.c:773-837 | the cursor is released and the next live node is pinned and returned, or NULL |
| THash.HashTable.CancelIterate | source/util/src/thash.c:839-852 | the cursor is released; a removed cursor or one that keeps a reference changes no lookup |
| THash.HashTable.Release | source/util/src/thash.c:860 | the release of an acquired node, as in CancelIterate |
| THash.OnlyMatchInFront | source/util/src/thash.c:346-349 | a node pushed in front of a chain without a live match for its key is that key's one live node, and the lookup finds it |
| THash.DiscardKeepsLookup | source/util/src/thash.c:359-370 | with updates off, a put that finds its key discards the new node; when the key has one live node, its lookup is unchanged, resize or not |
| THash.PutTwiceKeepsFirst | source/util/src/thash.c:298-372 | with updates off, put(k, v1) of an absent key then put(k, v2): the second put finds k, so it returns -1, and the lookup still finds the first node, holding v1 |
| Iteration.FirstLiveHead | source/util/src/thash.c:747-752 | the search for a live node behind the cursor stops at the first live node from there on |
| Iteration.ScanHead | source/util/src/thash.c:793-809 | the bucket scan stops at the first node of the live order of the slots from there on |
| Iteration.LiveAt | source/util/src/thash.c:793-809 | the j-th node of the order sits at a live chain position; after it come the live nodes behind it, then those of the later slots |
| Iteration.ReleaseAt | source/util/src/thash.c:729-771 | releasing a linked node finds it at its position and returns the first live node behind it; a node that keeps a reference stays linked |
| Iteration.IterateFirst | source/util/src/thash.c:783-809 | with no cursor, iteration goes for the first node of the order |
| Iteration.IterateNext | source/util/src/thash.c:783-809 | with the j-th node of the order as cursor, iteration goes for the (j + 1)-th, or NULL after the last |
| Iteration.PinKeepsOrder | source/util/src/thash.c:811-833 | pinning changes a count only: the order stays, and the result is the node found or NULL |
| Iteration.LiveFromFrame | source/util/src/thash.c:747-752 | the order depends only on the removed flags, not on reference counts |
| Iteration.IterateStep | source/util/src/thash.c:773-837 | one call with the j-th node as cursor keeps the chains, the size and the order for the next call, and returns the (j + 1)-th node or NULL |
| Iteration.IterateVisitsEachOnce | source/util/src/thash.c:773-837 | the order holds every live linked node, no other node, and none twice |
| Findings.StaleLookupAfterResize | source/util/src/thash.c:186-193 | as written: after an update of a referenced node, a lookup finds the new value, but after the following resize it finds the old one |
| Findings.UpdateTombstone | source/util/src/thash.c:176-194 | corrected update: the displaced node is marked removed, and is unlinked once its count reaches 0 |
| Findings.TombstoneOneLive | source/util/src/thash.c:176-194 | the corrected update leaves one live node for the key, the new one, where the old one was |
| Resize.RehashKeepsLookup | source/util/src/thash.c:640-672 | with one live node per key, the resize keeps every lookup |
| Findings.TombstoneThenResize | source/util/src/thash.c:176-194 | corrected: after the update a lookup finds the new node, before and after a resize |
| Findings.RemoveLoopAsWritten | source/util/src/thash.c:495-520 | the removal loop as written, ending when freeing a node sets pNode to NULL, keeps its pointers in the heap and sets the code only to 0 |
| Findings.StaleAfterRemove | source/util/src/thash.c:495-520 | as written: removing a key held by two live nodes of one chain frees the first, stops and reports success, and the second, live with the old value, is still the key's first match |
| Findings.ScanEmptiesChain | source/util/src/thash.c:495-520 | corrected: the scan that goes on with the successor marks both nodes and empties the same chain |

## Left out

- Locks: the latches and atomics are not modelled. Every operation is the sequential algorithm, as with `HASH_NO_LOCK`, and concurrent interleavings are not covered.
- Null handles: the `pHashObj == NULL` branches of every operation are left out. A Dafny receiver is never null.
- `taosHashSetEqualFp`, `taosHashSetFreeFp`: key equality is always `memcmp`, byte equality. `freeFp` and `callbackFp` are never called, because they are foreign code.
- Memory: freeing a node is modelled as unlinking it, and the node heap is never reused. `pMemBlock` and the entry blocks are left out.
- Allocation failures: a failed allocation in `Init`, in `doCreateHashNode` (where `Put` returns -1) or in the resize's `realloc` is not modelled. The allocation in `GetImpl` is a parameter.
- `taosHashCleanup`, `taosHashGetMaxOverflowLinkLength`, `taosHashGetKey`: these do not change or read the table's contents in a way the other operations depend on, so they are not modelled.
- Diagnostics: logging, the timestamps of the resize, the `MAX_WARNING_REF_COUNT` warning and the `assert`s are not modelled. The `ASSERT` at line 816 is not modelled either; the overflow branch it guards is.
- Header: `thash.h` is not part of this model. The field widths are assumed: `keyLen` and `dataLen` are `uint32_t`, and `refCount` is `uint16_t` (16-bit atomics are applied to it at lines 451 and 814-822). The 32-bit decrements at lines 179, 501 and 754 are modelled as a 16-bit decrement that wraps at 0, the same as the `<= 0` test on an unsigned count.
- Entry counter width: the `int32_t` `num` of an entry is an unbounded integer. The wrap-around of more than 2^31 nodes in one chain is not modelled.
- Lengths: key and value lengths are assumed below 2^32, so the `(uint32_t)` casts of `keyLen` and `dsize` are exact.
- HashTypes.HashIndex: the mask `v & (c - 1)` is modelled as `v % c`. The two agree for the power-of-two capacities the table keeps.
- HashTypes.CopyInto: a destination shorter than the n bytes copied is modelled as extended to n bytes. The C `memcpy` writes past its end. GetCopy and GetDup pass the caller's buffer, which is only promised to be large enough.
- RemoveSpec.RemoveScan: the `memcpy(data, ..., dsize)` of a removed value copies `min(dsize, dataLen)` bytes. The C copies `dsize` bytes, reading past the value when `dsize > dataLen`.
- RemoveSpec.RemoveScan: after unlinking and freeing a match, the scan goes on with the match's successor. The loop as written ends there, because `FREE_HASH_NODE` is `tfree`, which sets `pNode` to NULL (the comment at line 566 relies on this). The scan models the evidently intended loop, and the code's loop is `Findings.RemoveLoopAsWritten` (Finding B). The same holds for THash.HashTable.RemoveDrop, RemoveLoop, RemoveInSlot and RemoveFinish. `tfree` itself is not part of this model.
- THash.HashTable.RemoveWithData: the promise that the key is then found nowhere belongs to the corrected loop. The code stops after the first node it unlinks. So when two live nodes in one chain hold the key, which an update of a referenced node leaves (Finding A), one of them stays findable after a remove that returns 0.
- THash.HashTable.RemoveWithData: the promise that the key is then found nowhere holds when the table was not empty, or its size was 0. An `int32_t` size of 0 with a 64-bit size that is a nonzero multiple of 2^32 makes the C return early.
- THash.GetCopy: a buffer grown by `realloc` or made by `calloc` is modelled with its new bytes as zeros. The C leaves the grown part of a `realloc` unspecified, and the value copied over it is the same.
- THash.HashTable.Put: the update path keeps the code's behaviour, so a displaced node that is still referenced stays live behind its replacement. The corrected update of Finding A is proved in `Findings` only, and not used by the class.
- THash.HashTable.Put: its contract says which nodes and chains follow a discard, but not that the lookup is unchanged. That is stated in DiscardKeepsLookup, for a key with one live node. With updates off no put gives a key a second live node, but the table invariant does not record this, so a caller has to show it.
- Iteration.IterateStep: stated for a cursor that holds a reference besides the walk's own. Every node is created with one. A cursor whose count drops to 0 is unlinked and freed by the release, as the code does. The lemma does not describe the order after that.
- Iteration.IterateStep: a pin whose 16-bit count would overflow returns NULL, and that ends the walk early. The lemma allows this outcome.
- THash.AcquireRelease: its body is empty, because the properties follow from `ReleaseOf`'s definition. It is stated only for a node that is in its slot's chain.

## Findings

| source | as written | input that shows it | evidently intended | confidence | as-written member | corrected member |
|---|---|---|---|---|---|---|
| source/util/src/thash.c:186-193 | doUpdateHashNode leaves a displaced node whose count stays above 0 live right behind the new node. The resize pushes moved nodes one by one at the head of their new chain, reversing them | 4 slots, key [1] put with value [10] and acquired, key [2] put, then key [1] put with value [20]: the lookup finds [20]; the next put doubles the table and both [1] nodes move to slot 4 in reverse order, so the lookup finds [10] | a lookup after an update keeps finding the new value; the displaced node should be hidden from lookups (marked removed) while references to it remain | not executed | Findings.StaleLookupAfterResize | Findings.TombstoneThenResize |
| source/util/src/thash.c:495-519 | the remove loop frees the first match whose count reaches 0 with `FREE_HASH_NODE`, that is `tfree`, which sets `pNode` to NULL, so the loop ends there. Any later match in the chain is neither marked nor unlinked | the chain [new [1] node, old [1] node] left by the update above, each with one reference, then remove [1]: it returns 0 and the entry, now counting one node, heads the old node, still live with [10], so the lookup of [1] finds the old value | remove takes every live node of the key, going on with the freed node's successor, so the chain of the key ends up empty and the key is found nowhere | not executed | Findings.StaleAfterRemove | Findings.ScanEmptiesChain |
