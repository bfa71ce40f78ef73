/** The hash table's header (hashtable.h): the tag macro, the layout of an
    item's key and value inside its one data buffer, the widths of the length
    bit-fields, the outcome flags of a put and the delete results. */
module HashTableH {
  import opened Util

  /** `GET_TAG(h)` (hashtable.h:11): the 16 bits of the hash above its low
      32, that is `h >> 32` truncated to `uint16_t`. */
  function GetTag(h: U64): (t: nat)
    ensures t < 0x1_0000
  {
    (h / 0x1_0000_0000) % 0x1_0000
  }

  lemma Pow2Constants()
    ensures Pow2(16) == 0x1_0000 && Pow2(32) == 0x1_0000_0000
  {
    assert Pow2(8) == 0x100;
    Pow2Add(8, 8);
    Pow2Add(16, 16);
  }

  /** The macro as written, `(uint16_t)(h >> 32) & 0xffff`: the mask after
      the cast keeps every bit, so the tag is the 16-bit field at bits
      32..47 of the hash. */
  lemma TagMaskKeepsEveryBit(h: U64)
    ensures BitAnd(GetTag(h), 0xffff) == GetTag(h)
  {
    var x := GetTag(h);
    Pow2Constants();
    MaskIsMod(x, 16);
    DivModUnique(x, Pow2(16), 0, x);
  }

  /** `GET_BUCKET_IDX(h)`: `h & hash_mask` (hashtable.c:19). */
  function BucketIndex(h: U64, mask: nat): (b: nat)
    ensures b <= mask
  {
    BitAnd(h, mask)
  }

  /** With the mask `2^p - 1` of a table of `2^p` buckets, the bucket index is
      the hash modulo the table size, so it always names a bucket. */
  lemma BucketIndexInTable(h: U64, p: nat)
    ensures BucketIndex(h, Pow2(p) - 1) == h % Pow2(p) < Pow2(p)
  {
    MaskIsMod(h, p);
  }

  /** One past the largest value of the `key_len : 12` and
      `value_len : 20` bit-fields, `2^12` and `2^20` (hashtable.h:44-45). */
  const KEY_LEN_LIMIT: nat := 0x1000
  const VALUE_LEN_LIMIT: nat := 0x10_0000

  /** What an assignment to the 12-bit `key_len` field keeps: an unsigned
      bit-field stores its value modulo `2^12`. */
  function StoredKeyLen(n: nat): (k: nat)
    ensures k < KEY_LEN_LIMIT && (n < KEY_LEN_LIMIT ==> k == n)
  {
    n % KEY_LEN_LIMIT
  }

  /** What an assignment to the 20-bit `value_len` field keeps. */
  function StoredValueLen(n: nat): (v: nat)
    ensures v < VALUE_LEN_LIMIT && (n < VALUE_LEN_LIMIT ==> v == n)
  {
    n % VALUE_LEN_LIMIT
  }

  /** `hashtable_put` takes a 16-bit key length, so every key of 4096
      bytes or more is recorded with a shorter `key_len`, the length modulo
      4096, and the item no longer describes its buffer. */
  lemma KeyLenTruncated(key: seq<Byte>, value: seq<Byte>, tag: nat, hv: U64)
    requires KEY_LEN_LIMIT <= |key| < 0x1_0000
    ensures var it := NewItem(key, value, tag, hv);
      && it.keyLen == |key| % KEY_LEN_LIMIT < |key|
      && !WellFormed(it)
  {
  }

  /** An item's bookkeeping and its data buffer, which holds the key bytes
      followed by the value bytes (hashtable.h:43-58). The C fields
      `lastAccessedTime`, `interArrivalTime`, `n_requests` and the links are
      not part of this record (the tree links live in the tree). */
  datatype Item = Item(keyLen: nat, valueLen: nat, tag: nat, data: seq<Byte>,
                       active: bool, refCount: nat, hv: U64)

  /** An item whose lengths fit their fields and describe its buffer. */
  predicate WellFormed(it: Item) {
    it.keyLen < KEY_LEN_LIMIT && it.valueLen < VALUE_LEN_LIMIT && |it.data| == it.keyLen + it.valueLen
  }

  /** `item_key(it)`: the first `key_len` bytes of `data` (hashtable.h:62,64). */
  function ItemKey(it: Item): (k: seq<Byte>)
    requires WellFormed(it)
    ensures |k| == it.keyLen && k == it.data[..|k|]
  {
    it.data[..it.keyLen]
  }

  /** `item_value(it)`: the `value_len` bytes at `data + key_len`
      (hashtable.h:63,65). */
  function ItemValue(it: Item): (v: seq<Byte>)
    requires WellFormed(it)
    ensures |v| == it.valueLen && it.data == ItemKey(it) + v
  {
    it.data[it.keyLen..]
  }

  /** The item CreateHashTableItem builds (hashtable.c:62-78): lengths, tag
      and hash recorded, no references, active, and `data = key ++ value`. */
  function NewItem(key: seq<Byte>, value: seq<Byte>, tag: nat, hv: U64): (it: Item)
  {
    Item(StoredKeyLen(|key|), StoredValueLen(|value|), tag, key + value, true, 0, hv)
  }

  /** Keys and values that fit the bit-fields are recorded exactly, and the
      layout macros give them back. */
  lemma {:induction false} NewItemRoundTrip(key: seq<Byte>, value: seq<Byte>, tag: nat, hv: U64)
    requires |key| < KEY_LEN_LIMIT && |value| < VALUE_LEN_LIMIT
    ensures WellFormed(NewItem(key, value, tag, hv))
    ensures ItemKey(NewItem(key, value, tag, hv)) == key
    ensures ItemValue(NewItem(key, value, tag, hv)) == value
  {
    var it := NewItem(key, value, tag, hv);
    assert it.keyLen == |key| && it.valueLen == |value|;
    assert it.data[..|key|] == key;
    assert it.data[|key|..] == value;
  }

  /** With a key of 4096 bytes the recorded key length is 0, so `item_value`
      does not return the value that was stored. */
  lemma TruncatedKeyLosesValue(key: seq<Byte>, value: seq<Byte>, tag: nat, hv: U64)
    requires |key| == 0x1000 && |value| == 0
    ensures var it := NewItem(key, value, tag, hv);
      it.keyLen == 0 && |it.data| == 0x1000 && !WellFormed(it)
  {
  }

  /** The outcome of `hashtable_put`, one per result flag. */
  datatype PutOutcome =
    | UpdateSucc | UpdateFailOom | UpdateFailMemLimit
    | PutNewSucc | PutNewFailOom | PutNewFailMemLimit

  /** The `HASHTABLE_FLAGS_*` values (hashtable.h:30-35). */
  function Flag(o: PutOutcome): (f: bv16)
    ensures f != 0 && f & (f - 1) == 0
  {
    match o
    case UpdateSucc => 0x01
    case UpdateFailOom => 0x02
    case UpdateFailMemLimit => 0x04
    case PutNewSucc => 0x08
    case PutNewFailOom => 0x10
    case PutNewFailMemLimit => 0x20
  }

  /** The six flags are distinct single bits: no two share a bit, so the
      outcome can be read back from the flags word. */
  lemma FlagsDisjoint(a: PutOutcome, b: PutOutcome)
    ensures a != b <==> Flag(a) & Flag(b) == 0
  {
  }

  /** Results of `hashtable_delete` (hashtable.h:27-28). */
  const KV_DEL_SUCC: bool := true
  const KV_DEL_NO_VALUE: bool := false

  /** `sizeof(kv_hashtable_item_t)` and `sizeof(kv_hashtable_bucket_t)` on a
      64-bit (LP64) target: the item is 4 bytes of bit-fields, a 2-byte tag
      padded to 8, the `data` address, a byte and a 4-byte count padded to 8,
      four 8-byte counters, three tree links and the two chain links; the
      bucket is two 8-byte addresses. */
  const ITEM_SIZE: nat := 96
  const BUCKET_SIZE: nat := 16

  /** `MEMORY_LIMITATION`, 24 GiB (hashtable.c:20). */
  const MEMORY_LIMIT: nat := 24 * 0x4000_0000

  /** Bytes an item accounts for: its header plus its data buffer
      (hashtable.c:80-81). */
  function Footprint(keyLen: nat, valueLen: nat): (m: nat)
    ensures m >= ITEM_SIZE
  {
    ITEM_SIZE + keyLen + valueLen
  }
}
