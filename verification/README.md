# nic_cache_test core in Dafny

This project models the key-value store at the centre of nic_cache_test and
proves properties about it. The store has three parts.

- **The hash table** (`hashtable.c`, `hashtable.h`). It has `2^P` buckets.
  Each bucket holds a chain of items, newest first. A lookup hashes the key.
  The low bits of the hash select the bucket, and bits 32..47 give the
  16-bit *tag*. The lookup then returns the first item in that chain with the
  same tag; the key bytes are never compared. The table counts its items
  (`totalItem`) and the bytes they use (`totalUsedMemory`), and keeps the
  byte count under a 24 GiB budget. A put either adds an item, updates the
  item it found, or refuses. It reports which of six outcomes happened in a
  flags word.
- **The complete binary tree** (`complete_bin_tree.c`). It indexes every
  item. Level-order sequence number `k` reaches its item by following the
  bits of `k` below its highest set bit: a 1 goes right and a 0 goes left.
  An insert appends at slot `n + 1`. A delete moves the last item into the
  freed place. Random access draws a sequence number until it hits an
  active item.
- **Two utilities.** The connection pool (`connection.c`) is an array of
  connections whose unused cells form a free list headed by `head`. The
  random key generator (`gen_random_key_value.c`) builds a key of
  upper- and lower-case letters from random numbers.

How the C code maps onto Dafny:

- **The bucket array** is a Dafny `array<seq<Ref>>`, one chain per bucket.
  The item arena is a `map<Ref, Item>`, and a fresh reference stands for a
  `malloc`.
- **The tree** is class `CompleteBinTree.Tree`. Its `left`, `right` and
  `parent` maps are the link fields of the C items. The C code writes every
  one of those links, including the sentinel's `parent`.
- **The tree's abstract state** is the ghost sequence `slots`, the items in
  level order. `Valid()` ties the links to it.
- **The root's parent link is not consistent in the C code.** A first
  insert makes the root its own parent (complete_bin_tree.c:23). A delete
  that promotes a new root gives it the sentinel as parent
  (complete_bin_tree.c:77). `Valid()` allows either, and no operation reads
  the root's parent.
- **Table methods are proved against value functions.** Each method of
  `HashTable.Table` is proved against a function on `HashChains.Contents`
  (`PutEffect`, `DeleteEffect`, `AccessEffect`, …). Lemmas about those
  functions state what the table promises.
- **The pool** is class `Connection.Pool`. It holds an `array<Conn>` and a
  ghost free list.
- **The key generator** is a method that fills a `char` array.

The model is sequential. Locks and atomics are absent. Each wait for an
item's `refCount` to drop to zero becomes the precondition
`refCount == 0`. Some inputs the C code gets from the environment are
parameters:

- the hash function `XXH3_64bits` is a function `hash` given to the table's
  constructor;
- a `malloc` that fails is a boolean `oom`;
- the random numbers (`rand()`, `rng_int32()`) are a sequence `draws`.

The `uint64_t` counter `totalUsedMemory` wraps modulo `2^64` through
`HashChains.Wrap`. The counters `totalItem` and `n_items` are unbounded
`nat`s.

## Model

| member | source | states |
|---|---|---|
| Util.Log2 | complete_bin_tree.c:27 | the exact floor of the base-2 logarithm of `x >= 1`: `2^e <= x < 2^(e+1)`; the `double` `(uint64_t)log2(x)` agrees with it below `2^49 - 1` (see Left out) |
| Util.AndPow2IsBit | complete_bin_tree.c:32 | `x & (1 << i)` is `2^i` times bit `i` of `x`, so the walk's test is a test of bit `i` |
| Util.MaskIsMod | hashtable.c:19 | masking with `2^p - 1` keeps the low `p` bits: `x & (2^p - 1) == x % 2^p` |
| HashTableH.GetTag | hashtable.h:11 | the tag is below `2^16` |
| HashTableH.TagMaskKeepsEveryBit | hashtable.h:11 | the `& 0xffff` after the `uint16_t` cast keeps every bit of the tag |
| HashTableH.BucketIndex | hashtable.c:19 | `h & hash_mask` is at most the mask |
| HashTableH.BucketIndexInTable | hashtable.c:169-170 | with the mask `2^p - 1`, the bucket index is `h mod 2^p` and names a bucket (`GET_BUCKET_IDX`, hashtable.c:19) |
| HashTableH.StoredKeyLen | hashtable.h:44 | the 12-bit `key_len` field keeps a length below `2^12` exactly and is always below `2^12` |
| HashTableH.StoredValueLen | hashtable.h:45 | the 20-bit `value_len` field keeps a length below `2^20` exactly and is always below `2^20` |
| HashTableH.KeyLenTruncated | hashtable.h:44 | every key of 4096 to 65535 bytes is recorded with key length `len % 4096`, shorter than the key, and the item no longer describes its data buffer |
| HashTableH.ItemValue | hashtable.h:63-65 | `item_value` is the rest of the buffer, and key followed by value is the whole buffer |
| HashTableH.NewItemRoundTrip | hashtable.c:62-78 | for lengths that fit the bit-fields, the item CreateHashTableItem builds gives back the key and the value through the layout macros |
| HashTableH.TruncatedKeyLosesValue | hashtable.c:62-78 | a 4096-byte key is recorded with `key_len == 0`, so the item no longer describes its buffer |
| HashTableH.Flag | hashtable.h:30-35 | each `HASHTABLE_FLAGS_*` value is a single non-zero bit |
| HashTableH.FlagsDisjoint | hashtable.h:30-35 | two outcomes differ exactly when their flags share no bit |
| HashTableH.Footprint | hashtable.c:80-81 | an item accounts for at least `sizeof(kv_hashtable_item_t)` bytes |
| HashChains.UsedAtLeastHeaders | hashtable.c:80-81 | the counted bytes are at least one item header per item |
| HashChains.Wrap | hashtable.c:80-81 | `uint64_t` arithmetic is the identity on values that fit in 64 bits; the same wrap applies to the refund (hashtable.c:105) and the update (hashtable.c:340) |
| HashChains.Released | hashtable.c:105-106 | the corrected refund gives back exactly the bytes CreateHashTableItem counted |
| HashChains.ReleasedAsWrittenLeaks | hashtable.c:80-106 | with the refund as written, each create/destroy pair leaves 80 bytes counted; with the corrected one the count returns to where it was |
| HashChains.UpdateDiff | hashtable.c:332-340 | the corrected update diff takes the old item's counted size to the new key and value lengths; the diff as written is at hashtable.c:290 |
| HashChains.UpdateDiffAsWrittenUnderflows | hashtable.c:290 | with `value_len - item->value_len`, a key grown from 1 to 4000 bytes is never counted (an update that changes the key length needs two keys that agree in bucket and tag, which `HashChains.FindComparesTagsOnly` allows), and the later refund wraps the count past the budget; with the corrected diff it returns to 0 |
| HashChains.FirstTagIndex | hashtable.c:44-48 | the position found holds the tag, and no earlier position does |
| HashChains.FindTag | hashtable.c:44-48 | the TAILQ_FOREACH loop returns the first position whose tag matches, or the chain length |
| HashChains.FirstTagIndexFinds | hashtable.c:44-48 | in a chain with distinct tags, an item's tag finds that item |
| HashChains.ChainDistinct | hashtable.c:277 | a well-formed chain never holds an item twice |
| HashChains.RemoveAtContents | hashtable.c:367 | TAILQ_REMOVE takes away exactly the removed item |
| HashChains.Find | hashtable.c:34-49 | what GetItem returns is a live item in the key's bucket and carries the key's tag |
| HashChains.FindSpec | hashtable.c:34-49 | a lookup fails exactly when no item has the key's bucket and tag, and finds every item that does |
| HashChains.FindFinds | hashtable.c:34-49 | an item with the key's bucket and tag is what the lookup returns |
| HashChains.FindOwnKey | hashtable.c:34-49 | every item is found by its own key |
| HashChains.FindComparesTagsOnly | hashtable.c:44-46 | two keys whose hashes agree in bucket and tag find the same item |
| HashChains.FoundInKeyBucket | hashtable.c:41-46 | the item found is in the key's bucket and in the tree |
| HashChains.EmptyBucketsKeepGood | hashtable.c:169-181 | an empty table stays consistent when it gets `n` empty buckets under a new mask |
| HashChains.AcquireRelease | hashtable.c:399-402 | taking one reference and giving it back restores the contents |
| HashChains.RemoveKeepsGood | hashtable.c:367-373 | removing an item from its chain, the tree and the arena keeps the contents consistent |
| HashChains.AddKeepsGood | hashtable.c:267-285 | adding a fresh item for a key that is not found keeps the contents consistent |
| HashChains.ReplaceKeepsGood | hashtable.c:332-340 | rewriting an item in place with the same tag and hash keeps the contents consistent |
| HashChains.RecountKeepsGood | hashtable.c:233 | changing only a reference count keeps the contents consistent (also hashtable.c:240, 395, 401) |
| HashChains.UpdateKeepsGood | hashtable.c:332-340 | rewriting the found item with `key ++ value` keeps the contents consistent |
| HashChains.RemoveForgets | hashtable.c:367-373 | after the found item is removed, the key is no longer found |
| HashChains.PutEffectHolds | hashtable.c:243-348 | after a put the table is consistent. An item returned holds `key ++ value`, is active and unreferenced, and is what GetItem finds. A refused put leaves the key unfound |
| HashChains.PutEffectLeavesOthers | hashtable.c:243-348 | a put keeps every other item unchanged, and the only item it can add is the one it returns |
| HashChains.DeleteEffectForgets | hashtable.c:350-379 | a delete reports success exactly when the key was found. Afterwards the key is unfound, the table is consistent, and a success counts one item fewer and the item's bytes fewer |
| HashChains.AccessEffectGrants | hashtable.c:226-237 | access is granted exactly to an active item GetItem finds; it adds one reference, which StopToAccess undoes |
| HashChains.RandomAccessEffectGrants | hashtable.c:391-397 | a random access grants an active item and adds one reference. It gives up exactly when every draw hits an inactive item (the retry loop, complete_bin_tree.c:166-169) |
| HashChains.AccessAsWritten | hashtable.c:228-235 | as written, the call dereferences NULL exactly when no item matches the key, and grants exactly the item that the corrected `AccessEffect` grants |
| HashChains.AccessAsWrittenOnMissingKey | hashtable.c:228-230 | for every table and every key that no item matches, the call as written dereferences NULL, while the corrected effect returns nothing and leaves the table unchanged |
| HashChains.UpdateOomAsWrittenDrifts | hashtable.c:316-330 | for every table and every stored key, the OOM update as written leaves `totalItem` one above the number of items, so the table invariant fails; with the decrement of hashtable.c:300 it holds again |
| HashTable.Table.constructor | hashtable.c:24-32 | a table before setup: no buckets, no items, counters 0 |
| HashTable.Table.GetItem | hashtable.c:34-49 | returns what `Find` gives on the table's contents |
| HashTable.AlignmentAccepted | hashtable.c:172-173 | the alignment `2^hash_power` is a multiple of 8, as `posix_memalign` demands, exactly when `hash_power >= 3` |
| HashTable.MemalignResult | hashtable.c:172-173 | `posix_memalign` returns 0 exactly when the hash power is at least 3 and memory is available, and a positive error otherwise |
| HashTable.SetupAsWrittenWritesNull | hashtable.c:172-181 | as written, setup never reaches `exit`; it writes through a NULL bucket array exactly when the hash power is below 3 or memory runs out, and otherwise makes `2^hash_power` buckets |
| HashTable.SetupIntended | hashtable.c:172-181 | with the test `ret != 0`, setup never writes through NULL, and makes `2^hash_power` buckets exactly when the hash power is at least 3 and memory is available |
| HashTable.Table.Setup | hashtable.c:159-198 | a first call makes `2^hp` empty buckets with mask `2^hp - 1`; a later call changes nothing |
| HashTable.Table.EmptyBuckets | hashtable.c:172-181 | a fresh array of `n` empty chains |
| HashTable.Table.CreateItem | hashtable.c:51-90 | on `malloc` failure nothing changes. Otherwise a fresh item holding `key ++ value`, active and unreferenced, is added, and its header and data bytes are counted |
| HashTable.Table.DestroyItem | hashtable.c:92-117 | the item is removed from the arena and its counted bytes are given back |
| HashTable.Table.Unchain | hashtable.c:367 | TAILQ_REMOVE of the item from its chain; the same removal is at hashtable.c:294 and 319 |
| HashTable.Table.Push | hashtable.c:277 | TAILQ_INSERT_HEAD of the item into its chain |
| HashTable.Table.Evict | hashtable.c:367-373 | the item leaves its chain, the tree and the arena, its bytes are given back and one item fewer is counted; the table stays consistent; the same steps are at hashtable.c:294-300, and at hashtable.c:319-323 without the decrement (see Findings) |
| HashTable.Table.Detach | hashtable.c:367-373 | the steps of a removal, stated as `Remove` on the contents |
| HashTable.Table.PutNew | hashtable.c:254-287 | the new-key half of a put agrees with `PutEffect` and keeps the table consistent |
| HashTable.Table.AddNew | hashtable.c:267-287 | within the budget, a key not found gets a fresh item at the head of its chain and at the end of the tree, unless `malloc` fails |
| HashTable.Table.CreateAndLink | hashtable.c:267-285 | CreateHashTableItem followed by the linking, or nothing on `malloc` failure |
| HashTable.Table.Link | hashtable.c:277-285 | the new item is at the head of its chain, appended to the tree's slots, and counted |
| HashTable.Table.PutUpdate | hashtable.c:289-347 | the found-key half of a put agrees with `PutEffect` and keeps the table consistent |
| HashTable.Table.Reallocate | hashtable.c:306-346 | on `malloc` failure the item is removed and the flag is UPDATE_ITEM_FAIL_OOM. Otherwise it is rewritten in place and the flag is UPDATE_ITEM_SUCC |
| HashTable.Table.Rewrite | hashtable.c:332-340 | the found item gets the new lengths and `key ++ value`, is active again, and the used bytes change by the diff |
| HashTable.Table.Put | hashtable.c:243-348 | the flags, the item returned and the new contents are `PutEffect`; the table stays consistent |
| HashTable.Table.Delete | hashtable.c:350-379 | the result and the new contents are `DeleteEffect`; the table stays consistent |
| HashTable.Table.SetRefCount | hashtable.c:233 | only the item's reference count changes (also hashtable.c:240, 395, 401) |
| HashTable.Table.StartToAccess | hashtable.c:226-237 | the result and the new contents are `AccessEffect` |
| HashTable.Table.StartToAccessDirectly | hashtable.c:239-242 | one more reference to the item, and nothing else changes |
| HashTable.Table.StopToAccess | hashtable.c:399-402 | one reference fewer, and nothing else changes |
| HashTable.Table.StartToAccessRandomItem | hashtable.c:391-397 | the result and the new contents are `RandomAccessEffect` |
| HashTable.Table.GetSize | hashtable.c:381-384 | the size is the number of buckets, `2^P` |
| HashTable.Table.GetHashMask | hashtable.c:386-389 | the mask is the bucket count minus one, and `h & mask` is `h` modulo the bucket count for every hash |
| HashTable.Table.NumberOfObjects | hashtable.c:404-407 | `totalItem` is the number of items in the tree, and their headers alone fit in the used bytes, which stay under the budget, so there are fewer than `2^28` items |
| HashTable.Table.GetBucketIterator | hashtable.c:409-431 | no iterator when `malloc` fails or the bucket is empty. Otherwise a fresh iterator at the chain's first item, index 0, holding the lock |
| HashTable.RunFree | hashtable.c:433-438 | a step sequence starting with `free` is defined only on a live iterator |
| HashTable.FreeAsWrittenUsesFreedMemory | hashtable.c:436-437 | freeing the iterator before unlocking reads freed memory |
| HashTable.FreeInOrderReleases | hashtable.c:433-438 | reading the bucket, unlocking and then freeing releases the lock with no undefined step |
| HashTable.NextInChain | hashtable.c:443 | TAILQ_NEXT is NULL or an item of the chain |
| HashTable.BucketIterator.constructor | hashtable.c:415-429 | the iterator is at the chain's first item, index 0, holding the lock |
| HashTable.BucketIterator.Next | hashtable.c:440-445 | the index goes up by one and `cur` is the item at the new index, or NULL past the end |
| HashTable.BucketIterator.Free | hashtable.c:433-438 | the lock is released, and nothing else changes |
| CompleteBinTree.IndexOf | complete_bin_tree.c:56-57 | the slot of the item `it` that DeleteItem is given: a position in the level order that holds it, with no earlier one |
| CompleteBinTree.AtRemoveSlot | complete_bin_tree.c:56-119 | after a delete, slot `k` holds the last item and the highest slot is empty |
| CompleteBinTree.RemoveSlotContents | complete_bin_tree.c:56-119 | a delete removes exactly the deleted item and keeps the others distinct |
| CompleteBinTree.DescendStep | complete_bin_tree.c:130-136 | one step of the walk at bit `i` picks child `2 * here + bit i` |
| CompleteBinTree.DrawAsWrittenMisses | complete_bin_tree.c:167 | `rand() % n_items` can give 0, which is no sequence number, and never gives the last one |
| CompleteBinTree.Draw | complete_bin_tree.c:167 | the corrected draw lies in `1..n` |
| CompleteBinTree.DrawCoversAllSlots | complete_bin_tree.c:167 | every sequence number can be drawn |
| CompleteBinTree.AppendKeepsShape | complete_bin_tree.c:19-54 | InsertItem's link writes give the tree of the slots with the new item appended |
| CompleteBinTree.DetachTestIsParity | complete_bin_tree.c:92 | the test `x->_parent->_left == x` on the last slot `n` holds exactly when `n` is even (the same test is at complete_bin_tree.c:68 and 85) |
| CompleteBinTree.DeleteLastRootKeepsShape | complete_bin_tree.c:63-65 | deleting the only item leaves the empty tree |
| CompleteBinTree.DeleteLastKeepsShape | complete_bin_tree.c:84-89 | deleting the last item from below the root keeps the shape, and its links are cleared (complete_bin_tree.c:115-117) |
| CompleteBinTree.DeleteRootKeepsShape | complete_bin_tree.c:66-81 | the last item moves to the root with the sentinel as its parent, and the shape is kept, and the root's links are cleared (complete_bin_tree.c:115-117) |
| CompleteBinTree.RelinkInner | complete_bin_tree.c:91-117 | the link writes of an inner delete on the three link maps |
| CompleteBinTree.DeleteInnerChildrenAt | complete_bin_tree.c:92-105 | after an inner delete, every slot other than the deleted one has the right children |
| CompleteBinTree.DeleteInnerChildren | complete_bin_tree.c:92-105 | after an inner delete, every slot has the right children |
| CompleteBinTree.DeleteInnerParents | complete_bin_tree.c:106-109 | after an inner delete, every slot has the right parent, and the root's parent is unchanged |
| CompleteBinTree.DeleteInnerKeepsShape | complete_bin_tree.c:91-117 | an inner delete keeps the shape and clears the deleted item's links |
| CompleteBinTree.FirstActiveDraw | complete_bin_tree.c:166-169 | the retry loop's pick is an active item of the tree |
| CompleteBinTree.FirstActiveDrawSpec | complete_bin_tree.c:166-169 | the loop gives up exactly when no draw hits an active item, and picks one whenever some draw does |
| CompleteBinTree.FirstActiveDrawAllActive | complete_bin_tree.c:166-169 | when every item is active, the first draw decides |
| CompleteBinTree.Tree.constructor | complete_bin_tree.c:9-12 | the empty tree: root is the sentinel |
| CompleteBinTree.Tree.Descend | complete_bin_tree.c:128-136 | the walk over the bits of `k` down to bit `stop` ends at the item in slot `k >> stop`; InsertItem runs the same walk (complete_bin_tree.c:27-37) |
| CompleteBinTree.Tree.Search | complete_bin_tree.c:121-139 | SearchItem(k) is the item with sequence number `k` |
| CompleteBinTree.Tree.Insert | complete_bin_tree.c:18-54 | the item is appended as sequence number `n + 1`, and the links still form the complete tree |
| CompleteBinTree.Tree.Delete | complete_bin_tree.c:56-119 | the last item takes the deleted item's slot, one item fewer, the shape is kept, and the deleted item's links are NULL |
| CompleteBinTree.Tree.DeleteRoot | complete_bin_tree.c:62-81 | the `it == root` half of DeleteItem, with the same promise; the links are cleared at complete_bin_tree.c:115-118 |
| CompleteBinTree.Tree.DeleteBelowRoot | complete_bin_tree.c:83-118 | the `it != root` half of DeleteItem, with the same promise |
| CompleteBinTree.Tree.DeleteLastBelowRoot | complete_bin_tree.c:84-90 | deleting the last item below the root, with the same promise; the links are cleared at complete_bin_tree.c:115-118 |
| CompleteBinTree.Tree.DeleteInner | complete_bin_tree.c:91-117 | deleting an inner item, with the same promise |
| CompleteBinTree.Tree.RandomItem | complete_bin_tree.c:158-174 | the pick is `FirstActiveDraw` of the slots under the corrected draw |
| Connection.PopKeepsFreeList | connection.c:55-59 | taking the head off the free list leaves a free list starting at its successor |
| Connection.PushKeepsFreeList | connection.c:69-75 | linking a used cell in front of the head gives a free list one longer |
| Connection.Created | connection.c:30-35 | the cells of a new pool form one free list over the whole array in order, all marked unused |
| Connection.CreatedAsWritten | connection.c:30-35 | the loop as written builds a pool of `n` cells |
| Connection.CreatedAsWrittenLeavesLastUnmarked | connection.c:30-35 | as written, on zero-filled pages the last cell is on the free list but reads as CONNECTION_USED |
| Connection.Pool.constructor | connection.c:9-42 | the free list is `mem[0] -> … -> mem[n-1] -> NULL`, head 0, `n` free |
| Connection.Pool.Allocate | connection.c:44-64 | NULL exactly when the free list is empty. Otherwise the head cell is popped, marked used and unlinked, and the free count drops by one |
| Connection.Pool.Deallocate | connection.c:66-79 | the cell becomes the new head, marked unused and linked to the old head, and the free count goes up by one |
| RandomKeyValue.Letter | gen_random_key_value.c:25-32 | a letter, lower case exactly when the first draw is odd |
| RandomKeyValue.LetterCoversAlphabet | gen_random_key_value.c:25-32 | every letter of either case can be drawn |
| RandomKeyValue.RandomString | gen_random_key_value.c:24-33 | a key of `n` letters |
| RandomKeyValue.WrittenIndices | gen_random_key_value.c:22-33 | the indices a generation writes are exactly `0 .. keyLen`, the bytes GenerateRandomString's contract lets change |
| RandomKeyValue.GuardAsWrittenOverflows | gen_random_key_value.c:17-22 | as written, a buffer of exactly `keyLen` bytes passes the guard and gets its terminator one past the end |
| RandomKeyValue.GuardStaysInBuffer | gen_random_key_value.c:17-22 | with the guard `keyLen < buflen`, every write is inside the buffer |
| RandomKeyValue.GenerateRandomString | gen_random_key_value.c:12-34 | a buffer too small is unchanged. Otherwise the first `keyLen` bytes are the drawn letters, byte `keyLen` is NUL, and nothing after it changes |

## Left out

- Locks, atomics and the `usleep` waits are not modelled. The model is
  sequential. Each wait for `refCount` to reach zero (hashtable.c:100-102,
  310-312) is a precondition.
- The window in which an updated item is inactive (hashtable.c:308, 338) is
  not modelled. Only another thread could observe it.
- `hashtable_teardown` and `DestroyHashTableBucket` are not modelled: they
  free memory at exit. The `teardown` flag's skip of the refund in
  DestroyHashTableItem (hashtable.c:97-98) goes with them.
- `XXH3_64bits` is not modelled. It is the uninterpreted parameter `hash`.
- `rand()` and `rng_int32()` are not modelled (rng.c is not part of this
  model). Their values are the parameter `draws`.
- Failures of `malloc` and `get_huge_pages` that call `exit`, and the
  size computation for huge pages, are not modelled. A failing
  `posix_memalign` does not reach `exit` (see Findings).
- Logging, `printf` and `perror` are not modelled.
- The debug log file is not modelled.
- `connection_destroy_pool` is not modelled. It only frees memory.
- The network code and the test programs are not part of this model.
- The LIFO order of the pool has no lemma of its own. It is stated by the
  contracts of `Connection.Pool.Allocate` and `Connection.Pool.Deallocate`.
- Util.Log2: the C code takes `log2` on a `double`. The model uses the
  exact integer floor. Every count below 2^53 converts to `double`
  exactly, but `log2` rounds its result to the nearest `double`: from
  `2^49 - 1` on, a count just below a power of two `2^k` gets `log2`
  exactly `k`, one more than the floor. Such counts are not reached:
  `HashTable.Table.NumberOfObjects` proves the item count below 2^28,
  since every item is counted with its 96-byte header within the 24 GiB
  budget.
- CompleteBinTree.Tree.Descend: the C shift `1 << i` is a 32-bit `int`.
  It overflows for sequence numbers of `2^32` and more. The model uses
  unbounded powers of two.
- CompleteBinTree.Tree.RandomItem: it does not state that the draw is
  uniform. The retry loop runs over a finite sequence of draws, so the
  result is `None` when the draws run out. The C loop instead keeps
  drawing forever.
- CompleteBinTree.Tree.RandomItem: it requires a non-empty tree, as the C
  `assert(n_items > 0)` does (complete_bin_tree.c:164).
- HashTable.Table.Put: it requires keys shorter than 4096 bytes and values
  shorter than 2^20 bytes, the widths of the length bit-fields. Longer ones
  are recorded with wrong lengths (see Findings).
- HashTable.Table.Setup: it requires `3 <= hash_power < 32`. `1U <<
  hash_power` is defined only below 32. Below 3 the C code writes through
  a NULL bucket array, because its check `ret < 0` never holds for the
  positive error that `posix_memalign` returns. The corrected `exit` on an
  allocation failure is `HashTable.SetupIntended`; the method models only
  the successful allocation.
- HashTable.Table.GetBucketIterator: it requires an index that names a
  bucket. The C code indexes the bucket array unchecked.
- HashTable.BucketIterator.Next: it requires a current item. The C code
  dereferences `cur`.
- HashTable.BucketIterator.Free: it is the corrected order. The chain it
  iterates is kept as a value, since no other thread changes it while the
  lock is held.
- Connection.Pool.Deallocate: it requires a cell that is not already free.
  Returning a free cell would make the list cyclic.
- `refCount` is unbounded in the model. The C field is a `uint32_t` that
  would wrap after 2^32 concurrent references.
- The iterator's 32-bit `index` (hashtable.h:85) is unbounded in the model.
- The `uint64_t` counters `totalItem` and `n_items` are unbounded `nat`s.
  They would wrap only after 2^64 items.
- The `totalItem` count kept by the OOM update path is modelled correctly
  in `HashTable.Table.Reallocate`. The as-written drift is in Findings.
- RandomKeyValue.GenerateRandomString: with the corrected guard, a buffer
  of exactly `keyLen` bytes is also left unchanged, where the code as
  written would write one byte past it.

## Findings

| source | as written | input that shows it | evidently intended | confidence | as-written member | corrected member |
|---|---|---|---|---|---|---|
| complete_bin_tree.c:167 | `rand() % n_items` draws `0..n-1` as a sequence number | `rand()` returning a multiple of `n_items`: SearchItem(0) takes `log2(0)`; the last item is never drawn | draw `1 + rand() % n_items` | not executed | CompleteBinTree.DrawAsWrittenMisses | CompleteBinTree.DrawCoversAllSlots |
| hashtable.c:228-230 | the lookup result is dereferenced before any NULL check | `hashtable_start_to_access` on a key that is not in the table | return NULL when GetItem finds nothing | not executed | HashChains.AccessAsWrittenOnMissingKey | HashChains.AccessEffectGrants |
| hashtable.c:105-106 | the refund subtracts `sizeof(kv_hashtable_bucket_t)` (16) where 96 bytes were added | any put followed by a delete leaves 80 bytes counted | subtract `sizeof(kv_hashtable_item_t)` | not executed | HashChains.ReleasedAsWrittenLeaks | HashTable.Table.DestroyItem |
| hashtable.c:290 | the update diff is `value_len - item->value_len` and ignores the key length | put of a 1-byte key, then a put of a 4000-byte key that agrees with it in bucket and tag (the lookup compares only tags, hashtable.c:44-46), which updates the item, then a delete: the count wraps below zero | diff over key and value lengths | not executed | HashChains.UpdateDiffAsWrittenUnderflows | HashTable.Table.PutUpdate |
| hashtable.c:316-330 | the OOM update path destroys the item without decrementing `totalItem` | an update whose data `malloc` fails | decrement `totalItem` as the budget path does (hashtable.c:300) | not executed | HashChains.UpdateOomAsWrittenDrifts | HashTable.Table.Reallocate |
| hashtable.c:172-181 | the result of `posix_memalign` is compared with `ret < 0`, but its errors are positive | `hashtable_setup(2)`: alignment 4 is not a multiple of 8, EINVAL is returned, `table.bucket` stays NULL and `CreateHashTableBucket(&table.bucket[0])` writes through it | test `ret != 0` and exit | not executed | HashTable.SetupAsWrittenWritesNull | HashTable.SetupIntended |
| hashtable.c:436-437 | `free(iter)` comes before `UNLOCK(iter->b->lock)` | any call of `hashtable_free_bucket_iterator` | unlock first, then free | not executed | HashTable.FreeAsWrittenUsesFreedMemory | HashTable.FreeInOrderReleases |
| hashtable.h:44 | the 16-bit `key_len` parameter is stored in a 12-bit field | a put with a 4096-byte key records key length 0 | reject or bound keys of 4096 bytes and more | not executed | HashTableH.KeyLenTruncated | HashTableH.NewItemRoundTrip |
| connection.c:30-35 | the loop stops before the last cell, so its state is never set to CONNECTION_UNUSED | a pool on zero-filled pages: the last cell reads CONNECTION_USED while on the free list | mark every cell unused | not executed | Connection.CreatedAsWrittenLeavesLastUnmarked | Connection.Pool.constructor |
| gen_random_key_value.c:17-22 | the guard `buflen < keyLen` lets `buflen == keyLen` through, and `buf[keyLen]` is written | `buflen == keyLen` | require `keyLen < buflen` | not executed | RandomKeyValue.GuardAsWrittenOverflows | RandomKeyValue.GuardStaysInBuffer |
