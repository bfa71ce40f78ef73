/** The hash table (hashtable.c): `2^P` buckets, each a chain of items kept
    head first; an item is found by comparing only the 16-bit tag of the
    key's hash, in the bucket that the low bits of the hash select. Every item
    is also indexed by the complete binary tree, and the table keeps a count
    of its items and of the bytes they use, under a 24 GiB budget.

    The model is sequential: locks are absent, the waits for `refCount` to
    drop to zero (hashtable.c:100-102, 310-312) are the precondition
    `refCount == 0`, the hash function `XXH3_64bits` is the uninterpreted
    function `hash` given to the constructor, and a failing `malloc` is the
    boolean parameter `oom`. Items live in the arena `items`, addressed by
    the references the tree also uses; a fresh reference stands for a
    `malloc`. */
module HashTable {
  import opened Util
  import opened HashTableH
  import opened CompleteBinTree
  import opened HashChains

  /** The table and its counters (hashtable.c:24-32). */
  class Table {
    /** `CAL_HASH_VAL`: the 64-bit hash of a key (hashtable.h:10). */
    const hash: seq<Byte> -> U64
    /** The tree index over all items. */
    const tree: Tree
    var isSetup: bool
    var hashTableSize: nat
    var hashMask: nat
    /** Bucket `b`'s chain, head first. */
    var buckets: array<seq<Ref>>
    /** The live items by reference. */
    var items: map<Ref, Item>
    var totalItem: nat
    var totalUsedMemory: U64
    /** The next reference a `malloc` of an item hands out. */
    var nextRef: Ref
    ghost var hashPower: nat

    /** What the table holds, as one value. */
    ghost function Held(): Contents
      reads this, buckets, tree
    {
      Contents(buckets[..], items, tree.slots, totalItem, totalUsedMemory, nextRef)
    }

    ghost predicate Valid()
      reads this, buckets, tree
    {
      && tree.Valid()
      && Sized(isSetup, hashPower, hashTableSize, hashMask, buckets.Length, items)
      && Good(Held(), hash, hashMask)
    }

    /** The fields no item operation changes. */
    ghost function Layout(): (bool, nat, nat, array<seq<Ref>>, nat)
      reads this
    {
      (isSetup, hashTableSize, hashMask, buckets, hashPower)
    }

    /** A table before `hashtable_setup`: no buckets, no items. */
    constructor (hash: seq<Byte> -> U64)
      ensures Valid() && !isSetup && this.hash == hash && fresh(tree)
      ensures Held() == Contents([], map[], [], 0, 0, 1)
    {
      this.hash := hash;
      tree := new Tree();
      isSetup := false;
      hashTableSize := 0;
      hashMask := 0;
      buckets := new seq<Ref>[0];
      items := map[];
      totalItem := 0;
      totalUsedMemory := 0;
      nextRef := 1;
      hashPower := 0;
      new;
      assert buckets[..] == [];
    }

    /** GetItem: walk the key's bucket chain and return the first item with
        the key's tag. */
    method GetItem(key: seq<Byte>) returns (r: Option<Ref>)
      requires Valid() && isSetup
      ensures r == Find(Held(), hash, hashMask, key)
    {
      var hashVal := hash(key);
      var hashTag := GetTag(hashVal);
      var hashIdx := BucketIndex(hashVal, hashMask);
      var c := buckets[hashIdx];
      assert ChainOk(c, items, hashIdx, hashMask);
      var i := FindTag(c, items, hashTag);
      if i < |c| {
        return Some(c[i]);
      }
      return None;
    }

    /** hashtable_setup: a first call allocates `2^hashPower` empty buckets
        and sets the mask to the table size minus one; a later call changes
        nothing (hashtable.c:159-198). The shift `1U << hash_power` is
        defined only below 32, and `posix_memalign` accepts the alignment
        `2^hash_power` only from 3 on (see SetupAsWritten). */
    method Setup(hp: nat)
      requires Valid() && 3 <= hp < 32
      modifies this
      ensures Valid() && isSetup
      ensures old(isSetup) ==> Layout() == old(Layout()) && Held() == old(Held())
      ensures !old(isSetup) ==>
        && hashTableSize == Pow2(hp) && hashMask == Pow2(hp) - 1 && hashPower == hp && fresh(buckets)
        && Held() == old(Held()).(chains := seq(Pow2(hp), b => []))
    {
      if isSetup {
        return;
      }
      ghost var c := Held();
      hashTableSize := Pow2(hp);
      hashMask := hashTableSize - 1;
      buckets := EmptyBuckets(hashTableSize);
      hashPower := hp;
      isSetup := true;
      EmptyBucketsKeepGood(c, hash, old(hashMask), hashTableSize, hashMask);
    }

    /** The bucket array of hashtable_setup (hashtable.c:172-181): `n`
        fresh buckets, each made an empty chain by CreateHashTableBucket. */
    static method EmptyBuckets(n: nat) returns (a: array<seq<Ref>>)
      ensures fresh(a) && a[..] == seq(n, b => [])
    {
      a := new seq<Ref>[n];
      for i := 0 to n
        modifies a
        invariant forall j :: 0 <= j < i ==> a[j] == []
      {
        a[i] := [];
      }
    }

    /** CreateHashTableItem (hashtable.c:51-90): either `malloc` fails
        (`oom`) and nothing changes, or a fresh item holding `key ++ value`,
        active and unreferenced, is added and its bytes are counted. */
    method CreateItem(key: seq<Byte>, value: seq<Byte>, tag: nat, hv: U64, oom: bool) returns (r: Option<Ref>)
      modifies this
      ensures Layout() == old(Layout()) && totalItem == old(totalItem)
      ensures oom ==> r.None? && unchanged(this)
      ensures !oom ==>
        && r == Some(old(nextRef)) && nextRef == old(nextRef) + 1
        && items == old(items)[old(nextRef) := NewItem(key, value, tag, hv)]
        && totalUsedMemory == Wrap(old(totalUsedMemory) + |key| + |value| + ITEM_SIZE)
    {
      if oom {
        return None;
      }
      var item := nextRef;
      nextRef := nextRef + 1;
      items := items[item := NewItem(key, value, tag, hv)];
      totalUsedMemory := Wrap(totalUsedMemory + |key| + |value| + ITEM_SIZE);
      return Some(item);
    }

    /** DestroyHashTableItem (hashtable.c:92-117) with the refund that
        matches what CreateHashTableItem counted: the item is marked inactive,
        its references have drained, its bytes are given back and it is
        freed. */
    method DestroyItem(y: Ref)
      requires y in items && items[y].refCount == 0
      modifies this
      ensures Layout() == old(Layout()) && totalItem == old(totalItem) && nextRef == old(nextRef)
      ensures items == old(items) - {y}
      ensures totalUsedMemory == Wrap(old(totalUsedMemory) - Released(old(items[y])))
    {
      items := items[y := items[y].(active := false)];
      totalUsedMemory := Wrap(totalUsedMemory - Released(items[y]));
      items := items - {y};
    }

    /** TAILQ_REMOVE of `y` from chain `b`. */
    method Unchain(b: nat, y: Ref)
      requires b < buckets.Length && y in buckets[b]
      modifies buckets
      ensures buckets[..] == Unlinked(old(buckets[..]), b, y)
    {
      buckets[b] := RemoveAt(buckets[b], IndexOf(buckets[b], y));
    }

    /** TAILQ_INSERT_HEAD of `x` into chain `b`. */
    method Push(b: nat, x: Ref)
      requires b < buckets.Length
      modifies buckets
      ensures buckets[..] == Pushed(old(buckets[..]), b, x)
    {
      buckets[b] := [x] + buckets[b];
    }

    /** The removal of an existing item shared by hashtable_delete and both
        failing update paths of hashtable_put (hashtable.c:294-300, 319-323,
        367-373): TAILQ_REMOVE from its chain, complete_bin_tree_delete,
        DestroyHashTableItem and one item fewer in `totalItem`. */
    method Evict(y: Ref)
      requires Valid() && isSetup && y in items && items[y].refCount == 0
      modifies this, buckets, tree
      ensures Valid() && isSetup && Layout() == old(Layout())
      ensures Held() == old(Remove(Held(), BucketIndex(items[y].hv, hashMask), y))
    {
      var b := BucketIndex(items[y].hv, hashMask);
      RemoveKeepsGood(Held(), hash, hashMask, y);
      Detach(b, y);
    }

    /** The steps of a removal: TAILQ_REMOVE of `y` from chain `b`,
        complete_bin_tree_delete, DestroyHashTableItem and one item fewer in
        `totalItem`. */
    method Detach(b: nat, y: Ref)
      requires tree.Valid() && b < buckets.Length && y in buckets[b] && y in tree.slots
      requires y in items && items[y].refCount == 0 && totalUsedMemory >= Size(items[y]) && totalItem > 0
      modifies this, buckets, tree
      ensures tree.Valid() && Layout() == old(Layout())
      ensures Held() == old(Remove(Held(), b, y))
    {
      Unchain(b, y);
      tree.Delete(y);
      DestroyItem(y);
      totalItem := totalItem - 1;
    }

    /** The new-key half of hashtable_put (hashtable.c:254-287): refused by
        the budget with nothing changed, or passed on to AddNew. */
    method PutNew(key: seq<Byte>, value: seq<Byte>, oom: bool) returns (r: Option<Ref>, flags: bv16)
      requires Valid() && isSetup && |key| < KEY_LEN_LIMIT && |value| < VALUE_LEN_LIMIT
      requires Find(Held(), hash, hashMask, key).None?
      modifies this, buckets, tree
      ensures Valid() && isSetup && Layout() == old(Layout())
      ensures PutResult(flags, r, Held()) == old(PutEffect(Held(), hash, hashMask, key, value, oom))
    {
      flags := 0;
      if totalUsedMemory + ITEM_SIZE + |key| + |value| >= MEMORY_LIMIT {
        flags := flags | Flag(PutNewFailMemLimit);
        return None, flags;
      }
      r := AddNew(key, value, oom);
      if r.None? {
        flags := flags | Flag(PutNewFailOom);
      } else {
        flags := flags | Flag(PutNewSucc);
      }
    }

    /** A new item for a key that GetItem does not find, within the budget
        (hashtable.c:267-287): CreateHashTableItem, then TAILQ_INSERT_HEAD
        into the key's chain, complete_bin_tree_insert and one more item in
        `totalItem`; nothing changes when `malloc` fails. */
    method AddNew(key: seq<Byte>, value: seq<Byte>, oom: bool) returns (r: Option<Ref>)
      requires Valid() && isSetup && |key| < KEY_LEN_LIMIT && |value| < VALUE_LEN_LIMIT
      requires Find(Held(), hash, hashMask, key).None?
      requires totalUsedMemory + ITEM_SIZE + |key| + |value| < MEMORY_LIMIT
      modifies this, buckets, tree
      ensures Valid() && isSetup && Layout() == old(Layout())
      ensures (r, Held()) == old(if oom then (None, Held()) else
        (Some(nextRef), Add(Held(), BucketIndex(hash(key), hashMask), NewItem(key, value, GetTag(hash(key)), hash(key)))))
    {
      var hashVal := hash(key);
      var tag := GetTag(hashVal);
      var bucketIdx := BucketIndex(hashVal, hashMask);
      AddKeepsGood(Held(), hash, hashMask, key, value);
      r := CreateAndLink(bucketIdx, key, value, tag, hashVal, oom);
    }

    /** CreateHashTableItem, then, unless `malloc` failed, the linking of
        the new item into chain `b` and the tree (hashtable.c:267-285). */
    method CreateAndLink(b: nat, key: seq<Byte>, value: seq<Byte>, tag: nat, hv: U64, oom: bool) returns (r: Option<Ref>)
      requires tree.Valid() && b < buckets.Length && IsItem(nextRef) && nextRef !in tree.slots
      requires |key| < KEY_LEN_LIMIT && |value| < VALUE_LEN_LIMIT
      requires totalUsedMemory + Footprint(|key|, |value|) < MEMORY_LIMIT
      modifies this, buckets, tree
      ensures tree.Valid() && Layout() == old(Layout())
      ensures (r, Held()) == old(if oom then (None, Held()) else (Some(nextRef), Add(Held(), b, NewItem(key, value, tag, hv))))
    {
      r := CreateItem(key, value, tag, hv, oom);
      if r.None? {
        return;
      }
      Link(b, r.value);
    }

    /** TAILQ_INSERT_HEAD of the new item `x` into chain `b`,
        complete_bin_tree_insert and one more item in `totalItem`
        (hashtable.c:277-285). */
    method Link(b: nat, x: Ref)
      requires tree.Valid() && IsItem(x) && x !in tree.slots && b < buckets.Length
      modifies this, buckets, tree
      ensures Layout() == old(Layout()) && items == old(items)
      ensures totalUsedMemory == old(totalUsedMemory) && nextRef == old(nextRef)
      ensures buckets[..] == Pushed(old(buckets[..]), b, x)
      ensures tree.Valid() && tree.slots == old(tree.slots) + [x]
      ensures totalItem == old(totalItem) + 1
    {
      Push(b, x);
      tree.Insert(x);
      totalItem := totalItem + 1;
    }

    /** The existing-key half of hashtable_put (hashtable.c:289-347): refused
        by the budget or by `malloc`, in which case the old item is removed
        from its chain and the tree and destroyed; or the item found is
        rewritten in place with the new key and value, keeping its chain
        position, tree slot, tag and hash. The item is marked inactive while
        its buffer is replaced (hashtable.c:308-314, 340); sequentially that
        window is not observable, so the model goes straight to the new
        item. */
    method PutUpdate(key: seq<Byte>, value: seq<Byte>, oom: bool, y: Ref) returns (r: Option<Ref>, flags: bv16)
      requires Valid() && isSetup && |key| < KEY_LEN_LIMIT && |value| < VALUE_LEN_LIMIT
      requires Find(Held(), hash, hashMask, key) == Some(y) && items[y].refCount == 0
      modifies this, buckets, tree
      ensures Valid() && isSetup && Layout() == old(Layout())
      ensures PutResult(flags, r, Held()) == old(PutEffect(Held(), hash, hashMask, key, value, oom))
    {
      FoundInKeyBucket(Held(), hash, hashMask, key);
      EvictSlots(items, tree.slots, y);
      flags := 0;
      var diff := UpdateDiff(items[y], |key|, |value|);
      if Wrap(totalUsedMemory + diff) >= MEMORY_LIMIT {
        Evict(y);
        flags := flags | Flag(UpdateFailMemLimit);
        return None, flags;
      }
      r, flags := Reallocate(key, value, oom, y, flags);
    }

    /** The rest of a successful budget check (hashtable.c:306-346): the
        new buffer's `malloc` fails (`oom`) and the item is removed, or the
        item is rewritten in place. */
    method Reallocate(key: seq<Byte>, value: seq<Byte>, oom: bool, y: Ref, flags0: bv16) returns (r: Option<Ref>, flags: bv16)
      requires Valid() && isSetup && |key| < KEY_LEN_LIMIT && |value| < VALUE_LEN_LIMIT
      requires Find(Held(), hash, hashMask, key) == Some(y) && items[y].refCount == 0
      requires totalUsedMemory + UpdateDiff(items[y], |key|, |value|) < MEMORY_LIMIT
      modifies this, buckets, tree
      ensures Valid() && isSetup && Layout() == old(Layout())
      ensures flags == flags0 | Flag(if oom then UpdateFailOom else UpdateSucc)
      ensures (r, Held()) == old(if oom then (None, Remove(Held(), BucketIndex(hash(key), hashMask), y))
                                 else (Some(y), Replace(Held(), y, Updated(items[y], key, value))))
    {
      FoundInKeyBucket(Held(), hash, hashMask, key);
      flags := flags0;
      if oom {
        Evict(y);
        flags := flags | Flag(UpdateFailOom);
        return None, flags;
      }
      Rewrite(key, value, y);
      flags := flags | Flag(UpdateSucc);
      return Some(y), flags;
    }

    /** The in-place rewrite of a successful update (hashtable.c:306-346):
        the item found for `key` gets the new lengths and a buffer holding
        `key ++ value`, becomes active again, and the used bytes change by
        the difference. */
    method Rewrite(key: seq<Byte>, value: seq<Byte>, y: Ref)
      requires Valid() && isSetup && |key| < KEY_LEN_LIMIT && |value| < VALUE_LEN_LIMIT
      requires Find(Held(), hash, hashMask, key) == Some(y)
      requires totalUsedMemory + UpdateDiff(items[y], |key|, |value|) < MEMORY_LIMIT
      modifies this
      ensures Valid() && isSetup && Layout() == old(Layout())
      ensures Held() == old(Replace(Held(), y, Updated(items[y], key, value)))
    {
      ghost var c := Held();
      UpdateKeepsGood(c, hash, hashMask, key, value);
      var diff := UpdateDiff(items[y], |key|, |value|);
      items := items[y := Updated(items[y], key, value)];
      totalUsedMemory := Wrap(totalUsedMemory + diff);
      assert Held() == Replace(c, y, Updated(c.items[y], key, value));
    }

    /** hashtable_put (hashtable.c:243-348): GetItem decides between a new
        item and an update of the item found; the flags word reports which
        of the six outcomes happened, and the result is the item that now
        holds `key ++ value`, or none. A found item's references must have
        drained (the wait at hashtable.c:310-312). */
    method Put(key: seq<Byte>, value: seq<Byte>, oom: bool) returns (r: Option<Ref>, flags: bv16)
      requires Valid() && isSetup && |key| < KEY_LEN_LIMIT && |value| < VALUE_LEN_LIMIT
      requires Find(Held(), hash, hashMask, key).Some? ==> items[Find(Held(), hash, hashMask, key).value].refCount == 0
      modifies this, buckets, tree
      ensures Valid() && isSetup && Layout() == old(Layout())
      ensures PutResult(flags, r, Held()) == old(PutEffect(Held(), hash, hashMask, key, value, oom))
    {
      var item := GetItem(key);
      if item.None? {
        r, flags := PutNew(key, value, oom);
      } else {
        r, flags := PutUpdate(key, value, oom, item.value);
      }
    }

    /** hashtable_delete (hashtable.c:350-379): a key GetItem does not find
        gives KV_DEL_NO_VALUE and changes nothing; otherwise the item found
        is removed from its chain and the tree and destroyed, `totalItem`
        drops by one, and the result is KV_DEL_SUCC. */
    method Delete(key: seq<Byte>) returns (ok: bool)
      requires Valid() && isSetup
      requires Find(Held(), hash, hashMask, key).Some? ==> items[Find(Held(), hash, hashMask, key).value].refCount == 0
      modifies this, buckets, tree
      ensures Valid() && isSetup && Layout() == old(Layout())
      ensures (ok, Held()) == old(DeleteEffect(Held(), hash, hashMask, key))
    {
      var item := GetItem(key);
      if item.None? {
        return KV_DEL_NO_VALUE;
      }
      FoundInKeyBucket(Held(), hash, hashMask, key);
      Evict(item.value);
      return KV_DEL_SUCC;
    }

    /** Sets the reference count of item `y`: the only change an access
        makes. */
    method SetRefCount(y: Ref, n: nat)
      requires Valid() && y in items
      modifies this
      ensures Valid() && Layout() == old(Layout())
      ensures Held() == old(Replace(Held(), y, items[y].(refCount := n)))
    {
      ghost var c := Held();
      RecountKeepsGood(c, hash, hashMask, y, n);
      items := items[y := items[y].(refCount := n)];
      assert Held() == Replace(c, y, c.items[y].(refCount := n));
    }

    /** hashtable_start_to_access with the lookup result checked first
        (hashtable.c:226-237). */
    method StartToAccess(key: seq<Byte>) returns (r: Option<Ref>)
      requires Valid() && isSetup
      modifies this
      ensures Valid() && isSetup && Layout() == old(Layout())
      ensures (r, Held()) == old(AccessEffect(Held(), hash, hashMask, key))
    {
      var it := GetItem(key);
      if it.None? || !items[it.value].active {
        return None;
      }
      StartToAccessDirectly(it.value);
      return it;
    }

    /** hashtable_start_to_access_directly (hashtable.c:239-242): one more
        reference to an item the caller holds. */
    method StartToAccessDirectly(x: Ref)
      requires Valid() && x in items
      modifies this
      ensures Valid() && Layout() == old(Layout())
      ensures Held() == old(Acquire(Held(), x))
    {
      SetRefCount(x, items[x].refCount + 1);
    }

    /** hashtable_stop_to_access (hashtable.c:399-402): one reference
        fewer. */
    method StopToAccess(x: Ref)
      requires Valid() && x in items && items[x].refCount > 0
      modifies this
      ensures Valid() && Layout() == old(Layout())
      ensures Held() == old(Release(Held(), x))
    {
      SetRefCount(x, items[x].refCount - 1);
    }

    /** hashtable_start_to_access_random_item (hashtable.c:391-397): a
        random pick from the tree (with the intended draw), whose reference
        count then goes up by one. The tree asserts it is not empty
        (complete_bin_tree.c:164). */
    method StartToAccessRandomItem(draws: seq<nat>) returns (r: Option<Ref>)
      requires Valid() && totalItem > 0
      modifies this
      ensures Valid() && Layout() == old(Layout())
      ensures (r, Held()) == old(RandomAccessEffect(Held(), draws))
    {
      r := tree.RandomItem(draws, ActiveIn(items));
      if r.None? {
        return;
      }
      StartToAccessDirectly(r.value);
    }

    /** hashtable_get_size (hashtable.c:381-384). */
    method GetSize() returns (n: nat)
      requires Valid() && isSetup
      ensures n == buckets.Length && n == Pow2(hashPower)
    {
      return hashTableSize;
    }

    /** hashtable_get_hashmask (hashtable.c:386-389): the mask selects every
        bucket and no other index. */
    method GetHashMask() returns (m: nat)
      requires Valid() && isSetup
      ensures m + 1 == buckets.Length
      ensures forall h: U64 :: BucketIndex(h, m) == h % buckets.Length
    {
      m := hashMask;
      forall h: U64
        ensures BucketIndex(h, m) == h % buckets.Length
      {
        BucketIndexInTable(h, hashPower);
      }
    }

    /** hashtable_get_number_of_objects (hashtable.c:404-407): the number
        of items in the tree, each of which is counted in the used bytes
        with at least its header. The budget thus keeps the count below
        `2^28`, the 24 GiB budget over 96-byte headers. */
    method NumberOfObjects() returns (n: nat)
      requires Valid()
      ensures n == |tree.slots| && n * ITEM_SIZE <= totalUsedMemory < MEMORY_LIMIT
      ensures n < 0x1000_0000
    {
      UsedAtLeastHeaders(tree.slots, items);
      return totalItem;
    }

    /** hashtable_get_bucket_iterator (hashtable.c:409-431): `NULL` when the
        iterator's `malloc` fails or the bucket's chain is empty (the lock is
        then released again); otherwise a fresh iterator at the head of the
        chain, holding the bucket's lock. The C code indexes the bucket array
        unchecked, so the index must name a bucket. */
    method GetBucketIterator(idx: nat, oom: bool) returns (r: Option<BucketIterator>)
      requires Valid() && isSetup && idx < hashTableSize
      ensures r.None? <==> oom || buckets[idx] == []
      ensures r.Some? ==>
        && fresh(r.value) && r.value.Valid() && r.value.locked
        && r.value.bucketIdx == idx && r.value.chain == buckets[idx]
        && r.value.index == 0 && r.value.cur == buckets[idx][0]
    {
      if oom {
        return None;
      }
      var chain := buckets[idx];
      if chain == [] {
        return None;
      }
      ChainDistinct(chain, items, idx, hashMask);
      var iter := new BucketIterator(idx, chain);
      return Some(iter);
    }
  }

  /** `posix_memalign` takes an alignment that is a power of two and a
      multiple of `sizeof(void *)`, 8 on LP64. The alignment `2^p` of
      hashtable_setup (hashtable.c:172-173) is one exactly when `p >= 3`. */
  lemma {:induction false} AlignmentAccepted(p: nat)
    ensures Pow2(p) % 8 == 0 <==> 3 <= p
  {
    if p >= 3 {
      Pow2Add(3, p - 3);
      assert Pow2(3) == 8;
      assert Pow2(p) == 8 * Pow2(p - 3);
    } else {
      assert Pow2(0) == 1 && Pow2(1) == 2 && Pow2(2) == 4;
    }
  }

  /** `EINVAL` and `ENOMEM` on Linux. */
  const EINVAL: int := 22
  const ENOMEM: int := 12

  /** What `posix_memalign` returns for the bucket array of
      hashtable_setup: 0 on success, otherwise a positive error number,
      EINVAL for an alignment it does not accept and ENOMEM when memory
      runs out (`oom`). */
  function MemalignResult(p: nat, oom: bool): (ret: int)
    ensures ret >= 0 && (ret == 0 <==> 3 <= p && !oom)
  {
    AlignmentAccepted(p);
    if Pow2(p) % 8 != 0 then EINVAL else if oom then ENOMEM else 0
  }

  /** How hashtable_setup ends: at `exit`, with a write through a NULL
      bucket array, or with `n` buckets. */
  datatype SetupOutcome = Exits | NullWrite | Buckets(n: nat)

  /** hashtable_setup as written (hashtable.c:169-181): it exits only when
      `posix_memalign` returns a negative value; on any other failure
      `table.bucket` stays NULL and CreateHashTableBucket writes through
      it. */
  function SetupAsWritten(p: nat, oom: bool): SetupOutcome
    requires p < 32
  {
    var ret := MemalignResult(p, oom);
    if ret < 0 then Exits else if ret != 0 then NullWrite else Buckets(Pow2(p))
  }

  /** As written, the failure exit is dead: a hash power below 3, or an
      allocation that fails, writes through NULL instead. */
  lemma SetupAsWrittenWritesNull(p: nat, oom: bool)
    requires p < 32
    ensures SetupAsWritten(p, oom) != Exits
    ensures SetupAsWritten(p, oom) == NullWrite <==> p < 3 || oom
    ensures SetupAsWritten(p, oom) != NullWrite ==> SetupAsWritten(p, oom) == Buckets(Pow2(p))
  {
  }

  /** hashtable_setup with the result compared with `!= 0`: every failure
      exits, and otherwise there are `2^p` buckets. */
  function SetupIntended(p: nat, oom: bool): (o: SetupOutcome)
    requires p < 32
    ensures o != NullWrite
    ensures o == Buckets(Pow2(p)) <==> 3 <= p && !oom
  {
    if MemalignResult(p, oom) != 0 then Exits else Buckets(Pow2(p))
  }

  /** The steps of hashtable_free_bucket_iterator: free the iterator, read
      its bucket field `iter->b`, unlock that bucket. */
  datatype FreeStep = FreeIterator | ReadBucket | UnlockBucket

  /** The iterator's memory (allocated or freed), whether its bucket field
      has been read out of it, and whether the bucket's lock is held. */
  datatype IterCell = IterCell(live: bool, haveBucket: bool, locked: bool)

  /** The steps run in order; `None` is undefined behaviour: reading or
      freeing freed memory, or unlocking a bucket not yet read. */
  function RunFree(steps: seq<FreeStep>, c: IterCell): (r: Option<IterCell>)
    ensures r.Some? && |steps| > 0 && steps[0] == FreeIterator ==> c.live
    decreases |steps|
  {
    if steps == [] then Some(c)
    else
      var next := match steps[0]
        case FreeIterator => if c.live then Some(c.(live := false)) else None
        case ReadBucket => if c.live then Some(c.(haveBucket := true)) else None
        case UnlockBucket => if c.haveBucket && c.locked then Some(c.(locked := false)) else None;
      if next.None? then None else RunFree(steps[1..], next.value)
  }

  /** The order of hashtable_free_bucket_iterator as written
      (hashtable.c:436-437): `free(iter)` before `UNLOCK(iter->b->lock)`. */
  const FreeAsWritten: seq<FreeStep> := [FreeIterator, ReadBucket, UnlockBucket]

  /** The intended order: read the bucket, unlock it, then free. */
  const FreeInOrder: seq<FreeStep> := [ReadBucket, UnlockBucket, FreeIterator]

  /** As written, freeing a live iterator that holds its lock reads freed
      memory. */
  lemma FreeAsWrittenUsesFreedMemory()
    ensures RunFree(FreeAsWritten, IterCell(true, false, true)).None?
  {
    assert FreeAsWritten[1..] == [ReadBucket, UnlockBucket];
  }

  /** In the intended order the lock is released and the iterator freed,
      with no undefined step. */
  lemma FreeInOrderReleases()
    ensures RunFree(FreeInOrder, IterCell(true, false, true)) == Some(IterCell(false, true, false))
  {
    assert FreeInOrder[1..] == [UnlockBucket, FreeIterator];
    assert FreeInOrder[1..][1..] == [FreeIterator];
  }

  /** The item after `x` in a chain, `TAILQ_NEXT(x, link)`: NULL after the
      last one. */
  function NextInChain(c: seq<Ref>, x: Ref): (y: Ref)
    requires x in c
    ensures y == Null || y in c
  {
    var i := IndexOf(c, x);
    if i + 1 < |c| then c[i + 1] else Null
  }

  /** hash_iterator_t (hashtable.h:83-88): a cursor over one bucket's chain.
      The chain cannot change while the iterator holds the bucket's lock, so
      the iterator keeps it as `chain`; `cur` is the item at position
      `index`, or NULL past the last one. */
  class BucketIterator {
    var bucketIdx: nat
    var chain: seq<Ref>
    var cur: Ref
    var index: nat
    /** Whether the bucket's lock is still held. */
    var locked: bool

    ghost predicate Valid()
      reads this
    {
      Distinct(chain) && index <= |chain| && cur == (if index < |chain| then chain[index] else Null)
    }

    /** The iterator as hashtable_get_bucket_iterator fills it in
        (hashtable.c:415-429): the first item of a non-empty chain, index 0,
        the lock held. */
    constructor (idx: nat, c: seq<Ref>)
      requires c != [] && Distinct(c)
      ensures Valid() && locked && bucketIdx == idx && chain == c && index == 0 && cur == c[0]
    {
      bucketIdx, chain, cur, index, locked := idx, c, c[0], 0, true;
    }

    /** hash_bucket_iterator_next (hashtable.c:440-445): step to the next
        item of the chain. The C code dereferences `cur`, so there must be a
        current item. */
    method Next()
      requires Valid() && cur != Null
      modifies this
      ensures Valid() && index == old(index) + 1
      ensures chain == old(chain) && bucketIdx == old(bucketIdx) && locked == old(locked)
    {
      assert IndexOf(chain, cur) == index;
      cur := NextInChain(chain, cur);
      index := index + 1;
    }

    /** hashtable_free_bucket_iterator with the bucket read before the
        iterator is freed (hashtable.c:433-438 reads it after): `iter->b` is
        read while the iterator is still allocated, and the bucket's lock is
        released. */
    method Free()
      requires locked
      modifies this
      ensures !locked && chain == old(chain) && bucketIdx == old(bucketIdx)
      ensures cur == old(cur) && index == old(index)
    {
      locked := false;
    }
  }
}
