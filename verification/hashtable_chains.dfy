/** The value-level model of the hash table's contents (hashtable.c): the
    bucket chains as sequences of references, the item arena as a map, the
    used-byte accounting, and the lemmas that say how each change of the
    contents keeps them in agreement with each other and with the tree's
    slots. The class Table in module HashTable holds these values and
    changes them in place. */
module HashChains {
  import opened Util
  import opened HashTableH
  import opened CompleteBinTree

  /** Bytes an item accounts for. */
  function Size(it: Item): nat {
    Footprint(it.keyLen, it.valueLen)
  }

  /** The size of `x` if it is an item of `items`. */
  function SizeOf(items: map<Ref, Item>, x: Ref): nat {
    if x in items then Size(items[x]) else 0
  }

  /** The bytes used by the items `s` (the tree's slots). */
  function Used(s: seq<Ref>, items: map<Ref, Item>): nat
    decreases |s|
  {
    if |s| == 0 then 0 else Used(s[..|s| - 1], items) + SizeOf(items, s[|s| - 1])
  }

  lemma UsedAppend(s: seq<Ref>, items: map<Ref, Item>, x: Ref)
    ensures Used(s + [x], items) == Used(s, items) + SizeOf(items, x)
  {
    assert (s + [x])[..|s|] == s;
  }

  /** Only the items in `s` count. */
  lemma {:induction false} UsedCongruent(s: seq<Ref>, i1: map<Ref, Item>, i2: map<Ref, Item>)
    requires forall z :: z in s ==> SizeOf(i1, z) == SizeOf(i2, z)
    ensures Used(s, i1) == Used(s, i2)
    decreases |s|
  {
    if |s| > 0 {
      var t := s[..|s| - 1];
      assert forall z :: z in t ==> z in s;
      UsedCongruent(t, i1, i2);
    }
  }

  /** Replacing the item in one position changes the total by the
      difference of the two sizes. */
  lemma {:induction false} UsedSet(s: seq<Ref>, items: map<Ref, Item>, i: nat, y: Ref)
    requires i < |s|
    ensures Used(s[i := y], items) + SizeOf(items, s[i]) == Used(s, items) + SizeOf(items, y)
    decreases |s|
  {
    var n := |s|;
    if i < n - 1 {
      assert s[i := y][..n - 1] == s[..n - 1][i := y];
      UsedSet(s[..n - 1], items, i, y);
    } else {
      assert s[i := y][..n - 1] == s[..n - 1];
    }
  }

  /** Deleting slot `k` takes away exactly the size of the item there. */
  lemma UsedRemoveSlot(s: seq<Ref>, items: map<Ref, Item>, k: nat)
    requires 1 <= k <= |s|
    ensures Used(RemoveSlot(s, k), items) + SizeOf(items, s[k - 1]) == Used(s, items)
  {
    var n := |s|;
    assert s == s[..n - 1] + [s[n - 1]];
    UsedAppend(s[..n - 1], items, s[n - 1]);
    if k < n {
      UsedSet(s[..n - 1], items, k - 1, s[n - 1]);
    }
  }

  /** Changing one item that occurs once changes the total by the
      difference of its sizes. */
  lemma {:induction false} UsedItemChange(s: seq<Ref>, items: map<Ref, Item>, x: Ref, it: Item)
    requires x in s && Distinct(s)
    ensures Used(s, items[x := it]) + SizeOf(items, x) == Used(s, items) + Size(it)
  {
    var k := IndexOf(s, x) + 1;
    var t := RemoveSlot(s, k);
    RemoveSlotContents(s, k);
    UsedRemoveSlot(s, items, k);
    UsedRemoveSlot(s, items[x := it], k);
    forall z | z in t
      ensures SizeOf(items, z) == SizeOf(items[x := it], z)
    {
    }
    UsedCongruent(t, items, items[x := it]);
  }

  /** Every item accounts for at least `ITEM_SIZE` bytes. */
  lemma {:induction false} UsedAtLeastHeaders(s: seq<Ref>, items: map<Ref, Item>)
    requires forall i :: 0 <= i < |s| ==> s[i] in items
    ensures Used(s, items) >= ITEM_SIZE * |s|
    decreases |s|
  {
    if |s| > 0 {
      UsedAtLeastHeaders(s[..|s| - 1], items);
    }
  }

  /** An unsigned 64-bit result: C's `uint64_t` arithmetic wraps modulo
      `2^64`. */
  function Wrap(x: int): (r: U64)
    ensures 0 <= x < 0x1_0000_0000_0000_0000 ==> r == x
  {
    x % 0x1_0000_0000_0000_0000
  }

  /** The bytes DestroyHashTableItem gives back: the item's header and its
      data buffer, as CreateHashTableItem counted them (hashtable.c:80-81). */
  function Released(it: Item): (m: nat)
    ensures m == Size(it)
  {
    it.keyLen + it.valueLen + ITEM_SIZE
  }

  /** The bytes DestroyHashTableItem gives back as written
      (hashtable.c:105-106): it counts `sizeof(kv_hashtable_bucket_t)` where
      CreateHashTableItem counted `sizeof(kv_hashtable_item_t)`. */
  function ReleasedAsWritten(it: Item): nat {
    it.keyLen + it.valueLen + BUCKET_SIZE
  }

  /** As written, every create/destroy pair leaves 80 bytes counted as
      used, so the budget shrinks until every put is refused. */
  lemma ReleasedAsWrittenLeaks(key: seq<Byte>, value: seq<Byte>, tag: nat, hv: U64, used: U64)
    requires |key| < KEY_LEN_LIMIT && |value| < VALUE_LEN_LIMIT
    requires used + Footprint(|key|, |value|) < MEMORY_LIMIT
    ensures var it := NewItem(key, value, tag, hv);
      Wrap(Wrap(used + Footprint(|key|, |value|)) - ReleasedAsWritten(it)) == used + 80
    ensures var it := NewItem(key, value, tag, hv);
      Wrap(Wrap(used + Footprint(|key|, |value|)) - Released(it)) == used
  {
  }

  /** The change in used bytes when an update rewrites an item to
      `keyLen + valueLen` bytes of data: both lengths are rewritten
      (hashtable.c:332-333). */
  function UpdateDiff(it: Item, keyLen: nat, valueLen: nat): (d: int)
    ensures Size(it) + d == Footprint(keyLen, valueLen)
  {
    (keyLen + valueLen) - (it.keyLen + it.valueLen)
  }

  /** The change as written, `value_len - item->value_len`
      (hashtable.c:290): the key length is left out. */
  function UpdateDiffAsWritten(it: Item, valueLen: nat): int {
    valueLen - it.valueLen
  }

  /** As written, an update to a longer key is not counted, and destroying
      the item afterwards takes away more than was ever added: a table whose
      only item was created with a 1-byte key and then updated to a
      4000-byte key ends with a used-byte count that has wrapped past the
      24 GiB budget. With the diff that counts the key it ends at zero. */
  lemma UpdateDiffAsWrittenUnderflows(key: seq<Byte>, key2: seq<Byte>, tag: nat, hv: U64)
    requires |key| == 1 && |key2| == 4000
    ensures var it := NewItem(key, [], tag, hv);
      var used := Footprint(1, 0);
      var it2 := it.(keyLen := 4000, data := key2);
      var used2 := Wrap(used + UpdateDiffAsWritten(it, 0));
      Wrap(used2 - Released(it2)) >= MEMORY_LIMIT
    ensures var it := NewItem(key, [], tag, hv);
      var used := Footprint(1, 0);
      var it2 := it.(keyLen := 4000, data := key2);
      var used2 := Wrap(used + UpdateDiff(it, 4000, 0));
      Wrap(used2 - Released(it2)) == 0
  {
  }

  /** The position of the first item of chain `c` whose tag is `tag`, or
      `|c|` when there is none: the TAILQ_FOREACH of GetItem
      (hashtable.c:44-48). */
  function FirstTagIndex(c: seq<Ref>, items: map<Ref, Item>, tag: nat): (i: nat)
    requires forall j :: 0 <= j < |c| ==> c[j] in items
    ensures i <= |c|
    ensures i < |c| ==> items[c[i]].tag == tag
    ensures forall j :: 0 <= j < i ==> items[c[j]].tag != tag
    decreases |c|
  {
    if |c| == 0 then 0
    else if items[c[0]].tag == tag then 0
    else 1 + FirstTagIndex(c[1..], items, tag)
  }

  /** In a well-formed chain the tags differ, so the first item with the
      tag of the item at position `j` is that item. */
  lemma FirstTagIndexFinds(c: seq<Ref>, items: map<Ref, Item>, b: nat, mask: nat, j: nat)
    requires ChainOk(c, items, b, mask) && j < |c|
    ensures FirstTagIndex(c, items, items[c[j]].tag) == j
  {
    var i := FirstTagIndex(c, items, items[c[j]].tag);
    assert i <= j;
  }

  /** The chain without the item at position `i` (TAILQ_REMOVE). */
  function RemoveAt(c: seq<Ref>, i: nat): (r: seq<Ref>)
    requires i < |c|
    ensures |r| == |c| - 1
    ensures forall j :: 0 <= j < |r| ==> r[j] == if j < i then c[j] else c[j + 1]
  {
    c[..i] + c[i + 1..]
  }

  /** The items of chain `c` are in bucket `b`, carry the tag of their
      hash, and have pairwise different tags. */
  ghost predicate ChainOk(c: seq<Ref>, items: map<Ref, Item>, b: nat, mask: nat) {
    && (forall i :: 0 <= i < |c| ==>
          c[i] in items && BucketIndex(items[c[i]].hv, mask) == b && items[c[i]].tag == GetTag(items[c[i]].hv))
    && (forall i, j :: 0 <= i < j < |c| ==> items[c[i]].tag != items[c[j]].tag)
  }

  /** A chain never holds an item twice. */
  lemma ChainDistinct(c: seq<Ref>, items: map<Ref, Item>, b: nat, mask: nat)
    requires ChainOk(c, items, b, mask)
    ensures Distinct(c)
  {
    forall i, j | 0 <= i < j < |c|
      ensures c[i] != c[j]
    {
      assert items[c[i]].tag != items[c[j]].tag;
    }
  }

  /** TAILQ_REMOVE of the item at position `i` keeps the chain in order
      and takes away exactly that item. */
  lemma RemoveAtContents(c: seq<Ref>, i: nat)
    requires i < |c| && Distinct(c)
    ensures forall z :: z in RemoveAt(c, i) <==> z in c && z != c[i]
  {
    var r := RemoveAt(c, i);
    forall z | z in c && z != c[i]
      ensures z in r
    {
      var j :| 0 <= j < |c| && c[j] == z;
      if j < i {
        assert r[j] == z;
      } else {
        assert r[j - 1] == z;
      }
    }
  }

  /** Removing an item from its chain and from the arena keeps the chain
      well formed. */
  lemma ChainOkRemove(c: seq<Ref>, items: map<Ref, Item>, b: nat, mask: nat, i: nat)
    requires ChainOk(c, items, b, mask) && i < |c|
    ensures ChainOk(RemoveAt(c, i), items - {c[i]}, b, mask)
  {
    ChainDistinct(c, items, b, mask);
    var r := RemoveAt(c, i);
    forall j | 0 <= j < |r|
      ensures r[j] != c[i]
    {
      if j < i {
        assert r[j] == c[j];
      } else {
        assert r[j] == c[j + 1];
      }
    }
    forall j, k | 0 <= j < k < |r|
      ensures (items - {c[i]})[r[j]].tag != (items - {c[i]})[r[k]].tag
    {
      var j', k' := if j < i then j else j + 1, if k < i then k else k + 1;
      assert r[j] == c[j'] && r[k] == c[k'] && j' < k';
    }
  }

  /** Removing an item of another bucket from the arena keeps the chain
      well formed. */
  lemma ChainOkForget(c: seq<Ref>, items: map<Ref, Item>, b: nat, mask: nat, y: Ref)
    requires ChainOk(c, items, b, mask) && y in items && BucketIndex(items[y].hv, mask) != b
    ensures ChainOk(c, items - {y}, b, mask)
  {
  }

  /** An item carries the tag and bucket of the hash of its current key:
      an update may rewrite the key of an item to another key with the same
      tag and bucket, and keeps the old hash (hashtable.c:332-336). */
  ghost predicate FoundByKey(hash: seq<Byte> -> U64, it: Item, mask: nat)
    requires WellFormed(it)
  {
    GetTag(hash(ItemKey(it))) == it.tag && BucketIndex(hash(ItemKey(it)), mask) == BucketIndex(it.hv, mask)
  }

  /** Chain `b` of `bs` is a well-formed chain of bucket `b`. */
  ghost predicate ChainsOk(bs: seq<seq<Ref>>, items: map<Ref, Item>, mask: nat) {
    forall b :: 0 <= b < |bs| ==> ChainOk(bs[b], items, b, mask)
  }

  /** Every item is in the chain of its bucket. */
  ghost predicate Placed(bs: seq<seq<Ref>>, items: map<Ref, Item>, mask: nat) {
    forall x :: x in items ==>
      BucketIndex(items[x].hv, mask) < |bs| && x in bs[BucketIndex(items[x].hv, mask)]
  }

  /** The items are exactly the tree's slots. */
  ghost predicate Lockstep(items: map<Ref, Item>, slots: seq<Ref>) {
    forall x :: x in items <==> x in slots
  }

  /** Every item came from an earlier `malloc`, describes its buffer and is
      found by its key. */
  ghost predicate ItemsOk(items: map<Ref, Item>, hash: seq<Byte> -> U64, mask: nat, nextRef: Ref) {
    forall x :: x in items ==> 1 <= x < nextRef && WellFormed(items[x]) && FoundByKey(hash, items[x], mask)
  }

  /** The bucket array's shape: no buckets and no items before setup;
      afterwards `2^p` buckets, selected by the mask `2^p - 1`. The shift
      `1U << hash_power` is defined only below 32 (hashtable.c:171-172). */
  ghost predicate Sized(isSetup: bool, p: nat, size: nat, mask: nat, n: nat, items: map<Ref, Item>) {
    && (isSetup ==> p < 32 && size == Pow2(p) && mask == size - 1 && n == size)
    && (!isSetup ==> n == 0 && items == map[])
  }

  /** Taking an item out of its chain and the arena keeps every chain well
      formed and every other item in its bucket. */
  lemma EvictChains(bs: seq<seq<Ref>>, items: map<Ref, Item>, mask: nat, y: Ref)
    requires ChainsOk(bs, items, mask) && Placed(bs, items, mask) && y in items
    ensures var b := BucketIndex(items[y].hv, mask);
      && b < |bs| && y in bs[b]
      && ChainsOk(bs[b := RemoveAt(bs[b], IndexOf(bs[b], y))], items - {y}, mask)
      && Placed(bs[b := RemoveAt(bs[b], IndexOf(bs[b], y))], items - {y}, mask)
  {
    var b := BucketIndex(items[y].hv, mask);
    var c := bs[b];
    var i := IndexOf(c, y);
    var bs' := bs[b := RemoveAt(c, i)];
    assert ChainOk(c, items, b, mask);
    ChainDistinct(c, items, b, mask);
    ChainOkRemove(c, items, b, mask, i);
    RemoveAtContents(c, i);
    forall j | 0 <= j < |bs'|
      ensures ChainOk(bs'[j], items - {y}, j, mask)
    {
      if j != b {
        assert ChainOk(bs[j], items, j, mask);
        ChainOkForget(bs[j], items, j, mask, y);
      }
    }
  }

  /** Taking an item out of the tree's slots and the arena keeps them in
      lockstep and takes away exactly its bytes. */
  lemma EvictSlots(items: map<Ref, Item>, slots: seq<Ref>, y: Ref)
    requires Lockstep(items, slots) && Distinct(slots) && y in items
    ensures y in slots
    ensures Lockstep(items - {y}, RemoveSlot(slots, IndexOf(slots, y) + 1))
    ensures Used(RemoveSlot(slots, IndexOf(slots, y) + 1), items - {y}) + Size(items[y]) == Used(slots, items)
  {
    var k := IndexOf(slots, y) + 1;
    var t := RemoveSlot(slots, k);
    RemoveSlotContents(slots, k);
    UsedRemoveSlot(slots, items, k);
    UsedCongruent(t, items, items - {y});
  }

  /** Forgetting an item keeps the others well formed and found by key. */
  lemma ItemsOkRemove(items: map<Ref, Item>, hash: seq<Byte> -> U64, mask: nat, nextRef: Ref, y: Ref)
    requires ItemsOk(items, hash, mask, nextRef)
    ensures ItemsOk(items - {y}, hash, mask, nextRef)
  {
    forall x | x in items - {y}
      ensures 1 <= x < nextRef && WellFormed((items - {y})[x]) && FoundByKey(hash, (items - {y})[x], mask)
    {
      assert (items - {y})[x] == items[x];
    }
  }

  /** Everything a table holds besides its layout: the bucket chains, the
      item arena, the tree's slots, the item count (`totalItem`), the used
      bytes (`totalUsedMemory`) and the next reference a `malloc` hands
      out. */
  datatype Contents = Contents(chains: seq<seq<Ref>>, items: map<Ref, Item>, slots: seq<Ref>,
                               count: int, used: int, next: Ref)

  /** The contents agree: chain `b` is bucket `b`, every item is in its
      bucket and in the tree's slots and nowhere else, every item came from
      an earlier `malloc` and is found by its key, `used` is the bytes the
      items use, under the budget, and `count` is the number of items. */
  ghost predicate Good(c: Contents, hash: seq<Byte> -> U64, mask: nat) {
    && ChainsOk(c.chains, c.items, mask)
    && Placed(c.chains, c.items, mask)
    && Lockstep(c.items, c.slots)
    && Distinct(c.slots)
    && ItemsOk(c.items, hash, mask, c.next)
    && c.used == Used(c.slots, c.items) < MEMORY_LIMIT
    && c.count == |c.slots|
    && c.next >= 1
  }

  /** Contents without items stay good when the chains are replaced by `n`
      empty buckets under any mask, as `hashtable_setup` does. */
  lemma EmptyBucketsKeepGood(c: Contents, hash: seq<Byte> -> U64, mask0: nat, n: nat, mask: nat)
    requires Good(c, hash, mask0) && c.items == map[]
    ensures Good(c.(chains := seq(n, b => [])), hash, mask)
  {
    var bs: seq<seq<Ref>> := seq(n, b => []);
    forall b | 0 <= b < n
      ensures ChainOk(bs[b], c.items, b, mask)
    {
      assert bs[b] == [];
    }
  }

  /** Good contents of a table that has been set up: the mask selects
      only existing buckets. */
  ghost predicate Ready(c: Contents, hash: seq<Byte> -> U64, mask: nat) {
    Good(c, hash, mask) && mask < |c.chains|
  }

  /** What GetItem finds for `key` (hashtable.c:34-49): the first item of
      the key's bucket chain whose tag is the key's tag. */
  function Find(c: Contents, hash: seq<Byte> -> U64, mask: nat, key: seq<Byte>): (r: Option<Ref>)
    requires Ready(c, hash, mask)
    ensures r.Some? ==> r.value in c.items && r.value in c.chains[BucketIndex(hash(key), mask)]
    ensures r.Some? ==> c.items[r.value].tag == GetTag(hash(key))
  {
    var b := BucketIndex(hash(key), mask);
    var ch := c.chains[b];
    assert ChainOk(ch, c.items, b, mask);
    var i := FirstTagIndex(ch, c.items, GetTag(hash(key)));
    if i < |ch| then Some(ch[i]) else None
  }

  /** Item `x` is in the bucket of `key` and carries the key's tag. */
  ghost predicate Matches(c: Contents, hash: seq<Byte> -> U64, mask: nat, x: Ref, key: seq<Byte>) {
    x in c.items && BucketIndex(c.items[x].hv, mask) == BucketIndex(hash(key), mask)
    && c.items[x].tag == GetTag(hash(key))
  }

  /** An item that matches the key is what a lookup finds: tags within a
      chain differ. */
  lemma FindFinds(c: Contents, hash: seq<Byte> -> U64, mask: nat, key: seq<Byte>, x: Ref)
    requires Ready(c, hash, mask) && Matches(c, hash, mask, x, key)
    ensures Find(c, hash, mask, key) == Some(x)
  {
    var b := BucketIndex(hash(key), mask);
    var ch := c.chains[b];
    assert ChainOk(ch, c.items, b, mask);
    FirstTagIndexFinds(ch, c.items, b, mask, IndexOf(ch, x));
  }

  /** A lookup compares tags only: it fails exactly when no item matches
      the key, and finds every item that does. */
  lemma FindSpec(c: Contents, hash: seq<Byte> -> U64, mask: nat, key: seq<Byte>)
    requires Ready(c, hash, mask)
    ensures Find(c, hash, mask, key).None? <==> forall x :: !Matches(c, hash, mask, x, key)
    ensures forall x :: Matches(c, hash, mask, x, key) ==> Find(c, hash, mask, key) == Some(x)
  {
    forall x | Matches(c, hash, mask, x, key)
      ensures Find(c, hash, mask, key) == Some(x)
    {
      FindFinds(c, hash, mask, key, x);
    }
    var r := Find(c, hash, mask, key);
    if r.Some? {
      var b := BucketIndex(hash(key), mask);
      var ch := c.chains[b];
      assert ChainOk(ch, c.items, b, mask);
      assert ch[IndexOf(ch, r.value)] == r.value;
      assert Matches(c, hash, mask, r.value, key);
    }
  }

  /** Every item is found by its own key. */
  lemma FindOwnKey(c: Contents, hash: seq<Byte> -> U64, mask: nat, x: Ref)
    requires Ready(c, hash, mask) && x in c.items
    ensures WellFormed(c.items[x]) && Find(c, hash, mask, ItemKey(c.items[x])) == Some(x)
  {
    assert FoundByKey(hash, c.items[x], mask);
    FindFinds(c, hash, mask, ItemKey(c.items[x]), x);
  }

  /** Two keys whose hashes agree in bucket and tag find the same item: the
      key bytes themselves are never compared. */
  lemma FindComparesTagsOnly(c: Contents, hash: seq<Byte> -> U64, mask: nat, k1: seq<Byte>, k2: seq<Byte>)
    requires Ready(c, hash, mask)
    requires BucketIndex(hash(k1), mask) == BucketIndex(hash(k2), mask) && GetTag(hash(k1)) == GetTag(hash(k2))
    ensures Find(c, hash, mask, k1) == Find(c, hash, mask, k2)
  {
    FindSpec(c, hash, mask, k1);
    FindSpec(c, hash, mask, k2);
    assert forall x :: Matches(c, hash, mask, x, k1) <==> Matches(c, hash, mask, x, k2);
  }

  /** The item found for `key` is in the key's bucket and in the slots. */
  lemma FoundInKeyBucket(c: Contents, hash: seq<Byte> -> U64, mask: nat, key: seq<Byte>)
    requires Ready(c, hash, mask) && Find(c, hash, mask, key).Some?
    ensures Matches(c, hash, mask, Find(c, hash, mask, key).value, key)
    ensures Find(c, hash, mask, key).value in c.slots
  {
    FindSpec(c, hash, mask, key);
  }

  /** The chains with `y` taken out of chain `b` (TAILQ_REMOVE). */
  function Unlinked(bs: seq<seq<Ref>>, b: nat, y: Ref): seq<seq<Ref>>
    requires b < |bs| && y in bs[b]
  {
    bs[b := RemoveAt(bs[b], IndexOf(bs[b], y))]
  }

  /** The chains with `x` put at the head of chain `b` (TAILQ_INSERT_HEAD). */
  function Pushed(bs: seq<seq<Ref>>, b: nat, x: Ref): seq<seq<Ref>>
    requires b < |bs|
  {
    bs[b := [x] + bs[b]]
  }

  /** Item `y` taken out of chain `b` (TAILQ_REMOVE), out of the tree's
      slots (the last slot's item taking its place) and out of the arena,
      with its bytes given back and one item fewer counted. */
  function Remove(c: Contents, b: nat, y: Ref): Contents
    requires b < |c.chains| && y in c.chains[b] && y in c.slots && y in c.items
  {
    c.(chains := Unlinked(c.chains, b, y),
       items := c.items - {y},
       slots := RemoveSlot(c.slots, IndexOf(c.slots, y) + 1),
       count := c.count - 1,
       used := c.used - Size(c.items[y]))
  }

  /** A fresh item `it` at reference `next`, put at the head of chain `b`
      (TAILQ_INSERT_HEAD), at the end of the tree's slots and into the
      arena, with its bytes and one more item counted. */
  function Add(c: Contents, b: nat, it: Item): Contents
    requires b < |c.chains|
  {
    Contents(Pushed(c.chains, b, c.next), c.items[c.next := it], c.slots + [c.next],
             c.count + 1, c.used + Size(it), c.next + 1)
  }

  /** Item `y` rewritten in place as `it`, the used bytes changing by the
      difference of the two sizes. */
  function Replace(c: Contents, y: Ref, it: Item): Contents
    requires y in c.items
  {
    c.(items := c.items[y := it], used := c.used - Size(c.items[y]) + Size(it))
  }

  /** One more reference to item `y` (hashtable.c:233, 240, 395). */
  function Acquire(c: Contents, y: Ref): Contents
    requires y in c.items
  {
    Replace(c, y, c.items[y].(refCount := c.items[y].refCount + 1))
  }

  /** One reference fewer to item `y` (hashtable.c:401). */
  function Release(c: Contents, y: Ref): Contents
    requires y in c.items && c.items[y].refCount > 0
  {
    Replace(c, y, c.items[y].(refCount := c.items[y].refCount - 1))
  }

  /** Taking a reference and giving it back leaves the contents as they
      were. */
  lemma AcquireRelease(c: Contents, y: Ref)
    requires y in c.items
    ensures Release(Acquire(c, y), y) == c
  {
    var c' := Acquire(c, y);
    assert c'.items[y := c.items[y]] == c.items;
  }

  /** Taking an item out of its chain, the tree's slots and the arena keeps
      the contents in agreement, and gives back exactly the item's bytes. */
  lemma RemoveKeepsGood(c: Contents, hash: seq<Byte> -> U64, mask: nat, y: Ref)
    requires Good(c, hash, mask) && y in c.items
    ensures var b := BucketIndex(c.items[y].hv, mask);
      && b < |c.chains| && y in c.chains[b] && y in c.slots && c.used >= Size(c.items[y])
      && Good(Remove(c, b, y), hash, mask)
  {
    EvictChains(c.chains, c.items, mask, y);
    EvictSlots(c.items, c.slots, y);
    ItemsOkRemove(c.items, hash, mask, c.next, y);
    RemoveSlotContents(c.slots, IndexOf(c.slots, y) + 1);
  }

  /** Pushing a fresh item onto its bucket's chain keeps every chain well
      formed and every item in its bucket, when no item of that bucket has
      the new item's tag. */
  lemma PushKeepsChains(bs: seq<seq<Ref>>, items: map<Ref, Item>, mask: nat, b: nat, x: Ref, it: Item)
    requires ChainsOk(bs, items, mask) && Placed(bs, items, mask) && b < |bs| && x !in items
    requires BucketIndex(it.hv, mask) == b && it.tag == GetTag(it.hv)
    requires forall z :: z in items && BucketIndex(items[z].hv, mask) == b ==> items[z].tag != it.tag
    ensures ChainsOk(Pushed(bs, b, x), items[x := it], mask) && Placed(Pushed(bs, b, x), items[x := it], mask)
  {
    var items' := items[x := it];
    var bs' := Pushed(bs, b, x);
    forall j | 0 <= j < |bs'|
      ensures ChainOk(bs'[j], items', j, mask)
    {
      assert ChainOk(bs[j], items, j, mask);
      if j == b {
        var ch' := [x] + bs[b];
        forall i | 0 < i < |ch'|
          ensures ch'[i] in items && items'[ch'[i]] == items[ch'[i]] && items[ch'[i]].tag != it.tag
        {
          assert ch'[i] == bs[b][i - 1];
        }
      }
    }
  }

  /** Appending a fresh item to the tree's slots keeps them distinct and in
      lockstep with the arena, and adds exactly its bytes. */
  lemma AppendKeepsSlots(items: map<Ref, Item>, slots: seq<Ref>, x: Ref, it: Item)
    requires Lockstep(items, slots) && Distinct(slots) && x !in items
    ensures Lockstep(items[x := it], slots + [x]) && Distinct(slots + [x])
    ensures Used(slots + [x], items[x := it]) == Used(slots, items) + Size(it)
  {
    var s' := slots + [x];
    forall i, j | 0 <= i < j < |s'|
      ensures s'[i] != s'[j]
    {
      if j == |slots| {
        assert s'[i] == slots[i] && slots[i] in slots;
      } else {
        assert s'[i] == slots[i] && s'[j] == slots[j];
      }
    }
    UsedAppend(slots, items[x := it], x);
    UsedCongruent(slots, items, items[x := it]);
  }

  /** Putting a fresh item for a key that is not found at the head of the
      key's chain, into the arena and at the end of the tree's slots keeps
      the contents in agreement. */
  lemma AddKeepsGood(c: Contents, hash: seq<Byte> -> U64, mask: nat, key: seq<Byte>, value: seq<Byte>)
    requires Ready(c, hash, mask) && Find(c, hash, mask, key).None?
    requires |key| < KEY_LEN_LIMIT && |value| < VALUE_LEN_LIMIT
    requires c.used + Footprint(|key|, |value|) < MEMORY_LIMIT
    ensures c.next !in c.items
    ensures Ready(Add(c, BucketIndex(hash(key), mask), NewItem(key, value, GetTag(hash(key)), hash(key))), hash, mask)
  {
    var h := hash(key);
    var b := BucketIndex(h, mask);
    var it := NewItem(key, value, GetTag(h), h);
    var x := c.next;
    FindSpec(c, hash, mask, key);
    assert forall z :: z in c.items && BucketIndex(c.items[z].hv, mask) == b ==> c.items[z].tag != it.tag by {
      forall z | z in c.items && BucketIndex(c.items[z].hv, mask) == b
        ensures c.items[z].tag != it.tag
      {
        assert !Matches(c, hash, mask, z, key);
      }
    }
    PushKeepsChains(c.chains, c.items, mask, b, x, it);
    AppendKeepsSlots(c.items, c.slots, x, it);
    NewItemRoundTrip(key, value, GetTag(h), h);
    assert FoundByKey(hash, it, mask);
    assert ItemsOk(c.items[x := it], hash, mask, x + 1);
  }

  /** Replacing an item by one with the same tag and hash that is still
      found by its key keeps the contents in agreement. */
  lemma ReplaceKeepsGood(c: Contents, hash: seq<Byte> -> U64, mask: nat, y: Ref, it: Item)
    requires Good(c, hash, mask) && y in c.items
    requires it.tag == c.items[y].tag && it.hv == c.items[y].hv && WellFormed(it) && FoundByKey(hash, it, mask)
    requires c.used - Size(c.items[y]) + Size(it) < MEMORY_LIMIT
    ensures Good(Replace(c, y, it), hash, mask)
  {
    var items' := c.items[y := it];
    forall j | 0 <= j < |c.chains|
      ensures ChainOk(c.chains[j], items', j, mask)
    {
      assert ChainOk(c.chains[j], c.items, j, mask);
    }
    UsedItemChange(c.slots, c.items, y, it);
  }

  /** A change of the reference count alone keeps the contents in
      agreement. */
  lemma RecountKeepsGood(c: Contents, hash: seq<Byte> -> U64, mask: nat, y: Ref, n: nat)
    requires Good(c, hash, mask) && y in c.items
    ensures Good(Replace(c, y, c.items[y].(refCount := n)), hash, mask)
  {
    assert ItemKey(c.items[y].(refCount := n)) == ItemKey(c.items[y]);
    ReplaceKeepsGood(c, hash, mask, y, c.items[y].(refCount := n));
  }

  /** The item an update leaves behind: the new lengths, a buffer holding
      `key ++ value`, active again; tag, hash and references are kept
      (hashtable.c:332-340). */
  function Updated(it: Item, key: seq<Byte>, value: seq<Byte>): Item {
    it.(keyLen := |key|, valueLen := |value|, data := key + value, active := true)
  }

  /** Rewriting the item found for `key` with `key ++ value` keeps the
      contents in agreement, the used bytes changing by UpdateDiff. */
  lemma UpdateKeepsGood(c: Contents, hash: seq<Byte> -> U64, mask: nat, key: seq<Byte>, value: seq<Byte>)
    requires Ready(c, hash, mask) && Find(c, hash, mask, key).Some?
    requires |key| < KEY_LEN_LIMIT && |value| < VALUE_LEN_LIMIT
    requires c.used + UpdateDiff(c.items[Find(c, hash, mask, key).value], |key|, |value|) < MEMORY_LIMIT
    ensures var y := Find(c, hash, mask, key).value;
      Ready(Replace(c, y, Updated(c.items[y], key, value)), hash, mask)
  {
    var y := Find(c, hash, mask, key).value;
    FoundInKeyBucket(c, hash, mask, key);
    var it := Updated(c.items[y], key, value);
    NewItemRoundTrip(key, value, it.tag, it.hv);
    assert ItemKey(it) == key;
    ReplaceKeepsGood(c, hash, mask, y, it);
  }

  /** The result flags, the item returned and the new contents of a put. */
  datatype PutResult = PutResult(flags: bv16, item: Option<Ref>, after: Contents)

  /** hashtable_put with the accounting corrected (hashtable.c:243-348). A
      key that GetItem does not find gets a new item unless the used bytes
      plus the new item would reach the budget (hashtable.c:256-265) or
      `malloc` fails (hashtable.c:267-275). A key that GetItem finds has its
      item rewritten unless the used bytes plus the change would reach the
      budget (hashtable.c:290-305) or `malloc` fails (hashtable.c:316-330);
      either refusal removes the old item. */
  function PutEffect(c: Contents, hash: seq<Byte> -> U64, mask: nat, key: seq<Byte>, value: seq<Byte>, oom: bool): PutResult
    requires Ready(c, hash, mask)
  {
    var b := BucketIndex(hash(key), mask);
    match Find(c, hash, mask, key)
    case None =>
      if c.used + Footprint(|key|, |value|) >= MEMORY_LIMIT then PutResult(Flag(PutNewFailMemLimit), None, c)
      else if oom then PutResult(Flag(PutNewFailOom), None, c)
      else PutResult(Flag(PutNewSucc), Some(c.next), Add(c, b, NewItem(key, value, GetTag(hash(key)), hash(key))))
    case Some(y) =>
      if c.used + UpdateDiff(c.items[y], |key|, |value|) >= MEMORY_LIMIT then PutResult(Flag(UpdateFailMemLimit), None, Remove(c, b, y))
      else if oom then PutResult(Flag(UpdateFailOom), None, Remove(c, b, y))
      else PutResult(Flag(UpdateSucc), Some(y), Replace(c, y, Updated(c.items[y], key, value)))
  }

  /** Item `x` holds `key ++ value`, is active and unreferenced, and is
      what GetItem finds for `key`. */
  ghost predicate Holds(c: Contents, hash: seq<Byte> -> U64, mask: nat, x: Ref, key: seq<Byte>, value: seq<Byte>)
    requires Ready(c, hash, mask)
  {
    && x in c.items && WellFormed(c.items[x])
    && ItemKey(c.items[x]) == key && ItemValue(c.items[x]) == value
    && c.items[x].active && c.items[x].refCount == 0
    && Find(c, hash, mask, key) == Some(x)
  }

  /** Taking out the item found for `key` leaves the key unfound. */
  lemma RemoveForgets(c: Contents, hash: seq<Byte> -> U64, mask: nat, key: seq<Byte>)
    requires Ready(c, hash, mask) && Find(c, hash, mask, key).Some?
    ensures var y := Find(c, hash, mask, key).value;
      var b := BucketIndex(hash(key), mask);
      && y in c.chains[b] && y in c.slots
      && Ready(Remove(c, b, y), hash, mask)
      && Find(Remove(c, b, y), hash, mask, key).None?
  {
    var y := Find(c, hash, mask, key).value;
    var b := BucketIndex(hash(key), mask);
    FoundInKeyBucket(c, hash, mask, key);
    FindSpec(c, hash, mask, key);
    RemoveKeepsGood(c, hash, mask, y);
    var c' := Remove(c, b, y);
    forall x | Matches(c', hash, mask, x, key)
      ensures false
    {
      assert Matches(c, hash, mask, x, key);
    }
    FindSpec(c', hash, mask, key);
  }

  /** After a put, the item returned holds the key and the value and is
      what GetItem finds; a put that returns no item leaves the key unfound;
      and the contents still agree. */
  lemma PutEffectHolds(c: Contents, hash: seq<Byte> -> U64, mask: nat, key: seq<Byte>, value: seq<Byte>, oom: bool)
    requires Ready(c, hash, mask) && |key| < KEY_LEN_LIMIT && |value| < VALUE_LEN_LIMIT
    requires Find(c, hash, mask, key).Some? ==> c.items[Find(c, hash, mask, key).value].refCount == 0
    ensures var e := PutEffect(c, hash, mask, key, value, oom);
      && Ready(e.after, hash, mask)
      && (e.item.None? ==> Find(e.after, hash, mask, key).None?)
      && (e.item.Some? ==> Holds(e.after, hash, mask, e.item.value, key, value))
  {
    var e := PutEffect(c, hash, mask, key, value, oom);
    var b := BucketIndex(hash(key), mask);
    var f := Find(c, hash, mask, key);
    if f.None? {
      if e.item.Some? {
        AddKeepsGood(c, hash, mask, key, value);
        var it := NewItem(key, value, GetTag(hash(key)), hash(key));
        NewItemRoundTrip(key, value, it.tag, it.hv);
        assert Matches(e.after, hash, mask, c.next, key);
        FindFinds(e.after, hash, mask, key, c.next);
      }
    } else if e.item.None? {
      RemoveForgets(c, hash, mask, key);
    } else {
      var y := f.value;
      UpdateKeepsGood(c, hash, mask, key, value);
      FoundInKeyBucket(c, hash, mask, key);
      var it := Updated(c.items[y], key, value);
      NewItemRoundTrip(key, value, it.tag, it.hv);
      assert it == NewItem(key, value, it.tag, it.hv);
      assert Matches(e.after, hash, mask, y, key);
      FindFinds(e.after, hash, mask, key, y);
    }
  }

  /** A put touches only the item of its key: every other item is kept as
      it was, and the only item that can appear is the one returned. */
  lemma PutEffectLeavesOthers(c: Contents, hash: seq<Byte> -> U64, mask: nat, key: seq<Byte>, value: seq<Byte>, oom: bool)
    requires Ready(c, hash, mask)
    ensures var e := PutEffect(c, hash, mask, key, value, oom);
      forall z :: z in c.items && Find(c, hash, mask, key) != Some(z) ==>
        z in e.after.items && e.after.items[z] == c.items[z]
    ensures var e := PutEffect(c, hash, mask, key, value, oom);
      forall z :: z in e.after.items ==> z in c.items || e.item == Some(z)
  {
    var e := PutEffect(c, hash, mask, key, value, oom);
    assert c.next !in c.items;
  }

  /** hashtable_delete (hashtable.c:350-379): a key GetItem does not find
      gives KV_DEL_NO_VALUE and changes nothing; otherwise the item found
      is removed and the result is KV_DEL_SUCC. */
  function DeleteEffect(c: Contents, hash: seq<Byte> -> U64, mask: nat, key: seq<Byte>): (bool, Contents)
    requires Ready(c, hash, mask)
  {
    match Find(c, hash, mask, key)
    case None => (KV_DEL_NO_VALUE, c)
    case Some(y) => (KV_DEL_SUCC, Remove(c, BucketIndex(hash(key), mask), y))
  }

  /** After a delete the key is not found, the result says whether it was,
      and the contents still agree. */
  lemma DeleteEffectForgets(c: Contents, hash: seq<Byte> -> U64, mask: nat, key: seq<Byte>)
    requires Ready(c, hash, mask)
    ensures var (ok, c') := DeleteEffect(c, hash, mask, key);
      && (ok <==> Find(c, hash, mask, key).Some?)
      && Ready(c', hash, mask) && Find(c', hash, mask, key).None?
      && (ok ==> c'.count == c.count - 1 && c'.used == c.used - Size(c.items[Find(c, hash, mask, key).value]))
  {
    if Find(c, hash, mask, key).Some? {
      RemoveForgets(c, hash, mask, key);
    }
  }

  /** hashtable_start_to_access with the lookup result checked first
      (hashtable.c:226-237): a key GetItem does not find, or an inactive
      item, gives no item; otherwise the item gets one more reference. */
  function AccessEffect(c: Contents, hash: seq<Byte> -> U64, mask: nat, key: seq<Byte>): (Option<Ref>, Contents)
    requires Ready(c, hash, mask)
  {
    var f := Find(c, hash, mask, key);
    if f.None? || !c.items[f.value].active then (None, c) else (f, Acquire(c, f.value))
  }

  /** An access grants exactly the active items GetItem finds, and keeps
      the contents in agreement. */
  lemma AccessEffectGrants(c: Contents, hash: seq<Byte> -> U64, mask: nat, key: seq<Byte>)
    requires Ready(c, hash, mask)
    ensures var (r, c') := AccessEffect(c, hash, mask, key);
      && Ready(c', hash, mask)
      && (r.Some? <==> Find(c, hash, mask, key).Some? && c.items[Find(c, hash, mask, key).value].active)
      && (r.Some? ==> r == Find(c, hash, mask, key) && Release(c', r.value) == c)
  {
    var f := Find(c, hash, mask, key);
    if f.Some? && c.items[f.value].active {
      RecountKeepsGood(c, hash, mask, f.value, c.items[f.value].refCount + 1);
      AcquireRelease(c, f.value);
    }
  }

  /** The items whose `active` flag is set. */
  function ActiveIn(items: map<Ref, Item>): (a: set<Ref>)
    ensures forall x :: x in a <==> x in items && items[x].active
  {
    set x | x in items && items[x].active
  }

  /** hashtable_start_to_access_random_item (hashtable.c:391-397): the
      item complete_bin_tree_get_random_item draws, with one more
      reference; nothing changes when the draws run out first. */
  function RandomAccessEffect(c: Contents, draws: seq<nat>): (Option<Ref>, Contents)
    requires |c.slots| > 0
  {
    var f := FirstActiveDraw(c.slots, draws, ActiveIn(c.items));
    if f.None? then (None, c) else (f, Acquire(c, f.value))
  }

  /** A random access grants an active item of the table and keeps the
      contents in agreement; when every item is active the first draw
      decides. */
  lemma RandomAccessEffectGrants(c: Contents, hash: seq<Byte> -> U64, mask: nat, draws: seq<nat>)
    requires Good(c, hash, mask) && |c.slots| > 0
    ensures var (r, c') := RandomAccessEffect(c, draws);
      && Good(c', hash, mask)
      && (r.Some? ==> r.value in c.items && c.items[r.value].active && Release(c', r.value) == c)
      && (r.None? <==> forall j :: 0 <= j < |draws| ==> c.slots[Draw(draws[j], |c.slots|) - 1] !in ActiveIn(c.items))
  {
    var f := FirstActiveDraw(c.slots, draws, ActiveIn(c.items));
    FirstActiveDrawSpec(c.slots, draws, ActiveIn(c.items));
    if f.Some? {
      RecountKeepsGood(c, hash, mask, f.value, c.items[f.value].refCount + 1);
      AcquireRelease(c, f.value);
    }
  }

  /** The result of `hashtable_start_to_access` as written
      (hashtable.c:228-235). */
  datatype AccessResult = NullDereference | Refused | Granted(it: Ref)

  /** hashtable_start_to_access as written (hashtable.c:228-235): the
      lookup result is dereferenced before it is checked, so a key GetItem
      does not find dereferences NULL; an inactive item is refused, and an
      active one granted. */
  function AccessAsWritten(c: Contents, hash: seq<Byte> -> U64, mask: nat, key: seq<Byte>): (r: AccessResult)
    requires Ready(c, hash, mask)
    ensures r.NullDereference? <==> Find(c, hash, mask, key).None?
    ensures r.Granted? <==> AccessEffect(c, hash, mask, key).0.Some?
    ensures r.Granted? ==> AccessEffect(c, hash, mask, key).0 == Some(r.it)
  {
    var f := Find(c, hash, mask, key);
    if f.None? then NullDereference
    else if !c.items[f.value].active then Refused
    else Granted(f.value)
  }

  /** As written, an access to a key that no item matches dereferences
      NULL, where the checked access gives no item and changes nothing. */
  lemma AccessAsWrittenOnMissingKey(c: Contents, hash: seq<Byte> -> U64, mask: nat, key: seq<Byte>)
    requires Ready(c, hash, mask)
    requires forall x :: !Matches(c, hash, mask, x, key)
    ensures AccessAsWritten(c, hash, mask, key) == NullDereference
    ensures AccessEffect(c, hash, mask, key) == (None, c)
  {
    FindSpec(c, hash, mask, key);
  }

  /** The out-of-memory update path as written (hashtable.c:316-330): the
      item found for `key` leaves its chain, the tree and the arena, and its
      bytes are given back, but `totalItem` is not decremented, unlike the
      budget path (hashtable.c:300). */
  function UpdateOomAsWritten(c: Contents, hash: seq<Byte> -> U64, mask: nat, key: seq<Byte>): (c': Contents)
    requires Ready(c, hash, mask) && Find(c, hash, mask, key).Some?
  {
    var y := Find(c, hash, mask, key).value;
    FoundInKeyBucket(c, hash, mask, key);
    Remove(c, BucketIndex(hash(key), mask), y).(count := c.count)
  }

  /** As written, a failed update leaves `totalItem` one above the number
      of items in the tree, so the contents no longer agree; the path with
      the decrement keeps them in agreement. */
  lemma UpdateOomAsWrittenDrifts(c: Contents, hash: seq<Byte> -> U64, mask: nat, key: seq<Byte>)
    requires Ready(c, hash, mask) && Find(c, hash, mask, key).Some?
    ensures var c' := UpdateOomAsWritten(c, hash, mask, key);
      c'.count == |c'.slots| + 1 && !Good(c', hash, mask)
    ensures var c' := UpdateOomAsWritten(c, hash, mask, key);
      Good(c'.(count := c'.count - 1), hash, mask)
  {
    var y := Find(c, hash, mask, key).value;
    var b := BucketIndex(hash(key), mask);
    FoundInKeyBucket(c, hash, mask, key);
    RemoveForgets(c, hash, mask, key);
    RemoveSlotContents(c.slots, IndexOf(c.slots, y) + 1);
    assert Remove(c, b, y) == UpdateOomAsWritten(c, hash, mask, key).(count := c.count - 1);
  }

  /** The TAILQ_FOREACH of GetItem (hashtable.c:44-48): the position of the
      first item of chain `c` whose tag is `tag`, or `|c|` when none is. */
  method FindTag(c: seq<Ref>, items: map<Ref, Item>, tag: nat) returns (i: nat)
    requires forall j :: 0 <= j < |c| ==> c[j] in items
    ensures i == FirstTagIndex(c, items, tag)
  {
    i := 0;
    while i < |c| && items[c[i]].tag != tag
      invariant i <= |c|
      invariant forall j :: 0 <= j < i ==> items[c[j]].tag != tag
    {
      i := i + 1;
    }
  }

}
