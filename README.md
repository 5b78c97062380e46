# LongLongMap in Dafny

`LongLongMap` is a fixed-capacity hash map from `long` keys to `long` values. It keeps
all of its state in one memory block that is zero-filled at construction. The block is
a sequence of 24-byte records of three words: `key`, `value` and `next`.

The constructor splits the block in two:

- a primary table of `countNode` records, where key `k` has the slot `Math.abs(k % countNode)`;
- an overflow area of `countListCells` records, handed out by a bump pointer
  (`lastListCellAddress`, `countListNode`).

The `next` word encodes the record's state:

- `0` (the zero fill): the record was never written;
- `-1`: the record ends its chain;
- anything else: the address of the next record of the chain.

`put` writes an unused slot directly. If the slot's own key equals `k`, it overwrites
the value there. Otherwise it appends an overflow record behind the tail of the slot's
chain. `get` walks the chain from the slot.

The project has seven files:

- `int64.dfy`: Java's `long`, its truncating `%` and its wrapping `Math.abs`.
- `layout.dfy`: the constants, the field offsets, the capacity split and the
  key-to-slot addressing.
- `chains.dfy`: the block as a value (`State`), the invariant `Inv`, the chains it
  encodes, and reference definitions of `get` (`GetSpec`) and `put` (`PutSpec`).
- `chain_lemmas.dfy`: what `put` and `get` do to the invariant, to the chains and to
  later lookups.
- `longlongmap.dfy`: class `LongLongMap`. The block is an array of records, the two
  counters are mutable fields, and `GetLastNode` and `GetFromNode` are the source's
  while-loops. Each method is proved against the reference definitions.
- `words.dfy`: the block read as `long` words, and each branch of `put` as the
  source's sequence of `putLong` calls.
- `scenarios.dfy`: a 192-byte block with six primary slots and two overflow records,
  driven through collisions, a shadowed duplicate, exhaustion and a fault.

Addresses are byte offsets from the start of the block. A link stored in `next` is
the byte offset of the target record, which is always at least 24 and a multiple of
24. The walks move from record to record by index (`Target(next) = next / 24`).

### Behaviour kept from the code

- The comment on `get` (LongLongMap.java:132-137) says it returns the value or 0. The
  code does that only while it walks occupied records. Take a slot that was never
  written and a key other than 0: the walk reads `next == 0` and follows it as
  address 0 (lines 148-150). The model returns `Err(InvalidAddress)` there.
  `Chains.SearchFrom` states exactly when this happens. `ChainLemmas.InitialGet`
  shows it for every nonzero key of a fresh map.
- `put` compares `k` only with the slot's own key (line 82). If `k` already sits in
  an overflow record of the chain, `put` appends a second record for it and returns
  0. `get` still finds the older one first. `ChainLemmas.PutThenGet` states the round
  trip with this exception (`ChainLemmas.Shadowed`), and
  `Scenarios.SmallBlockScenario` exhibits it.
- `Math.abs` is applied after the remainder, so `Long.MIN_VALUE` keys land inside the
  primary table like every other key (`Layout.SlotIndexIsMagnitudeMod`).

## Model

| member | source | states |
|---|---|---|
| Int64.Rem | src/com/company/LongLongMap.java:170 | Java's `k % n` for `n > 0`: the magnitude of the result is the magnitude of `k` modulo `n`, and a nonzero result has the sign of `k` |
| Int64.Abs | src/com/company/LongLongMap.java:170 | `Math.abs` on a `long`: the magnitude of the argument, except that `Long.MIN_VALUE` maps to itself |
| Layout.KeyAddress | src/com/company/LongLongMap.java:128-130 | for the record at an aligned offset, the key is an 8-byte-aligned word, word `3i` of the block for record `i` |
| Layout.ValueAddress | src/com/company/LongLongMap.java:124-126 | for the record at an aligned offset, the value is the aligned word `3i + 1` |
| Layout.NextAddress | src/com/company/LongLongMap.java:120-122 | for the record at an aligned offset, the link is the aligned word `3i + 2` |
| Layout.Plan | src/com/company/LongLongMap.java:49-52 | the split: all `countNode + countListCells` records fit in `size` bytes, fewer than 24 bytes are left over, the overflow area is a third of the records (rounded down) and never larger than the primary table, and `countNode` is 0 exactly when `size < 24` |
| Layout.SlotIndex | src/com/company/LongLongMap.java:168-172 | for `countNode > 0`, `Math.abs(k % countNode)` lies in `[0, countNode)` for every `long` |
| Layout.SlotIndexIsMagnitudeMod | src/com/company/LongLongMap.java:170 | the slot is `|k| mod countNode` for every `long`, including `Long.MIN_VALUE` |
| Layout.OverflowStart | src/com/company/LongLongMap.java:52 | the overflow area starts at a non-negative offset, and all `countListCells` overflow records after it fit in the block |
| Layout.RecordIndex | src/com/company/LongLongMap.java:87-94 | an aligned byte offset is 24 times the index of the record it names |
| Layout.NodeAddress | src/com/company/LongLongMap.java:168-172 | the primary-slot offset is aligned to a record and names a record of the primary table, namely the key's slot |
| Chains.RecordOk | src/com/company/LongLongMap.java:36-39 | a record is unused (its `next` is the zero fill) exactly when it is a zero-filled primary slot |
| Chains.Inv | src/com/company/LongLongMap.java:36-39 | on a well-formed block the bump pointer is the byte offset of the first record not yet used, the used records are a prefix of the block, and the block's records fit in `size` bytes |
| Chains.InitialState | src/com/company/LongLongMap.java:49-54 | the constructor's block: as many whole records as fit in `size` bytes, all unused, no overflow record taken, and the bump pointer at byte `24 * countNode`, the end of the primary table |
| Chains.ChainFrom | src/com/company/LongLongMap.java:111-118 | the records visited from `i` start at `i`, stay inside the used records, and every record after the first lies in the overflow area |
| Chains.ChainTail | src/com/company/LongLongMap.java:111-118 | the end of the chain from `i` is `i` itself or an overflow record, no earlier than `i` and inside the used records |
| Chains.SearchFrom | src/com/company/LongLongMap.java:143-160 | the walk of the private `get` faults exactly when it starts on a never-written record whose zero key is not `k`, and the only fault it can hit is following the zero fill |
| Chains.KeyIndex | src/com/company/LongLongMap.java:145-153 | reference definition of the first chain position whose key is `k`: a position it returns holds `k` and no earlier position does; `|c|` means no position holds `k` |
| Chains.GetSpec | src/com/company/LongLongMap.java:138-141 | `get(k)` divides by zero exactly when the primary table is empty, and faults exactly when the key's slot was never written and `k` is not 0 |
| Chains.PutSpec | src/com/company/LongLongMap.java:65-104 | `put(k, v)` never follows the zero fill; when it succeeds, the block keeps its size, at most one overflow record is taken, and the bump pointer moves by 24 bytes per record taken |
| Chains.Appended | src/com/company/LongLongMap.java:86-95 | after the collision writes the block keeps its size, the count goes up by one and the pointer by 24, the old tail links to the old pointer's offset, and the record there holds `k, v, -1` |
| ChainLemmas.ChainLinks | src/com/company/LongLongMap.java:113-116 | along a chain each record links to the next at a strictly higher index, so no record is visited twice and the loops terminate |
| ChainLemmas.ChainEnd | src/com/company/LongLongMap.java:113-116 | a chain ends at a record whose `next` is a sentinel, and every key in it has the slot of the first record's key |
| ChainLemmas.OccupiedChain | src/com/company/LongLongMap.java:111-118 | from an occupied record every record of the chain is occupied and the last one holds `-1` |
| ChainLemmas.InitialInv | src/com/company/LongLongMap.java:46-55 | the zero-filled block with an empty overflow area satisfies the invariant |
| ChainLemmas.InitialGet | src/com/company/LongLongMap.java:54 | on a fresh map `get(k)` divides by zero if `size < 24`, returns 0 for `k == 0`, and faults for every other key |
| ChainLemmas.LinkStep | src/com/company/LongLongMap.java:114-115 | following a link moves forward inside the used records, onto an occupied record with the same chain tail |
| ChainLemmas.KeyIndexCons | src/com/company/LongLongMap.java:145-153 | the first match in `[i] + d` is 0 if record `i` holds `k`, and otherwise one more than the first match in `d` |
| ChainLemmas.SearchStep | src/com/company/LongLongMap.java:149-156 | one loop step of `get` past a non-matching record: the walk result, the first-match position and the chain tail are those of the rest of the chain |
| ChainLemmas.SearchStop | src/com/company/LongLongMap.java:149 | a walk at a record that ends its chain looks at that record only |
| ChainLemmas.SearchFindsFirst | src/com/company/LongLongMap.java:143-157 | if the chain holds `k`, `get` returns the value of the first record in chain order (head first) whose key is `k` |
| ChainLemmas.SearchMisses | src/com/company/LongLongMap.java:148-159 | if the chain does not hold `k`, `get` returns 0 when the chain ends in `-1` and faults when it ends in the zero fill |
| ChainLemmas.SearchIsFirstMatch | src/com/company/LongLongMap.java:143-160 | `get` agrees with an independent first-match search of the chain, in both cases |
| ChainLemmas.SearchFrame | src/com/company/LongLongMap.java:143-160 | the walk depends only on the records of its chain: two well-formed blocks that agree on those records give the same result |
| ChainLemmas.FillSlotInv | src/com/company/LongLongMap.java:76-79 | writing `k, v, -1` into an unused slot keeps the invariant |
| ChainLemmas.OverwriteInv | src/com/company/LongLongMap.java:82-83 | overwriting the value of an occupied slot keeps the invariant |
| ChainLemmas.TailOfSlot | src/com/company/LongLongMap.java:111-118 | the tail of an occupied slot's chain is the slot itself or an overflow record, holds a key of that slot and ends in `-1` |
| ChainLemmas.AppendedInv | src/com/company/LongLongMap.java:85-95 | linking the next free overflow record behind the chain tail keeps the invariant, including the bump-pointer equation |
| ChainLemmas.PutPreservesInv | src/com/company/LongLongMap.java:65-104 | every `put` that does not throw keeps the invariant |
| ChainLemmas.PutErrors | src/com/company/LongLongMap.java:85-99 | `put` throws exactly in two cases: an empty primary table (`k % 0`), or a collision with every overflow record in use; it never follows the zero fill |
| ChainLemmas.PutIntoUnusedSlot | src/com/company/LongLongMap.java:76-79 | on an unused slot `put` writes exactly `k, v, -1` there, leaves the counters and every other record alone and returns 0 |
| ChainLemmas.PutOverwritesHead | src/com/company/LongLongMap.java:82-83 | when the slot's own key is `k`, `put` changes only that record's value and returns the value it replaced |
| ChainLemmas.AppendedIsStep | src/com/company/LongLongMap.java:86-95 | a collision `put` links the chain tail, whose `next` was `-1`, to the first free overflow record. That record becomes `k, v, -1`, and no other record changes |
| ChainLemmas.AppendExtendsChain | src/com/company/LongLongMap.java:90 | after the append every chain that ended at the old tail continues to the new record and ends there |
| ChainLemmas.PutAppends | src/com/company/LongLongMap.java:85-96 | the collision branch: the record at `lastListCellAddress` is taken, the pointer advances by 24 and `countListNode` by one, the old tail links to the new record, which holds `k, v, -1`, no other record changes, the result is 0, and the slot's chain gains the new record at its end |
| ChainLemmas.SearchAfterAppend | src/com/company/LongLongMap.java:90-94 | after an append, a walk along the extended chain finds what it found before if the old chain held its key, and otherwise reaches the new record |
| ChainLemmas.PutThenGet | src/com/company/LongLongMap.java:82-96 | round trip: after a `put(k, v)` that does not throw, `get(k)` returns `v`, unless `k` was shadowed; then `get(k)` succeeded before and still returns the older value |
| ChainLemmas.PutKeepsOtherSlots | src/com/company/LongLongMap.java:65-104 | `put(k, v)` leaves `get` of every key of another slot unchanged |
| ChainLemmas.FillKeepsSameSlotKeys | src/com/company/LongLongMap.java:76-79 | after filling an unused slot, every other key of that slot finds 0; before, only key 0 did and the others faulted |
| ChainLemmas.OverwriteKeepsSameSlotKeys | src/com/company/LongLongMap.java:82-83 | overwriting the head's value leaves `get` of the other keys of that slot unchanged |
| ChainLemmas.AppendKeepsSameSlotKeys | src/com/company/LongLongMap.java:85-96 | an append leaves `get` of the other keys of that slot unchanged |
| ChainLemmas.PutKeepsSameSlotKeys | src/com/company/LongLongMap.java:65-104 | `put(k, v)` leaves `get` of another key of the same slot unchanged, except that a lookup that faulted on the unused slot now returns 0 |
| BlockWords.Words | src/com/company/LongLongMap.java:36-39 | the records laid end to end as `long` words cover exactly the bytes of the records |
| BlockWords.ReadFields | src/com/company/LongLongMap.java:72-74 | `getLong` at the key, value and next offsets of record `i` reads that record's key, value and link |
| BlockWords.WriteFields | src/com/company/LongLongMap.java:77-94 | `putLong` at the key, value or next offset of record `i` changes that one field of record `i` and no other word |
| BlockWords.WriteRecord | src/com/company/LongLongMap.java:77-79 | the three writes of key, value and `-1` to record `i` give the record `k, v, -1` |
| BlockWords.FillWrites | src/com/company/LongLongMap.java:76-79 | as words, `put` on an unused slot is exactly the three `putLong` calls on the slot's key, value and link |
| BlockWords.OverwriteWrites | src/com/company/LongLongMap.java:82-83 | as words, `put` on a slot whose key is `k` is exactly one `putLong` on the slot's value |
| BlockWords.AppendWrites | src/com/company/LongLongMap.java:86-94 | as words, a collision `put` is exactly the `putLong` of the old pointer into the tail's link, and then three `putLong` calls that fill the record at that pointer |
| Maps.LongLongMap.constructor | src/com/company/LongLongMap.java:46-55 | the fields hold the split of `size`, the block is zero-filled, the bump pointer is at the start of the overflow area, and the invariant holds |
| Maps.LongLongMap.GetNodeAddress | src/com/company/LongLongMap.java:168-172 | an empty primary table divides by zero; otherwise the result is the aligned offset of slot `|k| mod countNode` |
| Maps.LongLongMap.GetLastNode | src/com/company/LongLongMap.java:111-118 | the loop returns the tail of the chain, an occupied record whose `next` is `-1` |
| Maps.LongLongMap.GetFromNode | src/com/company/LongLongMap.java:143-160 | the loop computes the walk `SearchFrom` from the given record, so it shares that walk's first-match, fault and frame properties |
| Maps.LongLongMap.Get | src/com/company/LongLongMap.java:138-141 | `get(k)` changes nothing and returns the walk from the key's slot: a division by zero exactly when the primary table is empty, a fault exactly when the slot was never written and `k` is not 0, and otherwise the value of the first record of the chain holding `k`, or 0 (through `GetSpec`, `SearchIsFirstMatch`) |
| Maps.LongLongMap.AppendAfter | src/com/company/LongLongMap.java:87-95 | the writes of the collision branch: the pointer advances by 24, the count by one, the tail's `next` becomes the old pointer, the new record becomes `k, v, -1`, and nothing else changes |
| Maps.LongLongMap.Put | src/com/company/LongLongMap.java:65-104 | `put(k, v)` keeps the invariant. It throws with nothing written exactly when the primary table is empty or a collision finds every overflow record used. Otherwise it fills an unused slot with `k, v, -1`, overwrites the slot's value when its key is `k`, or links a new record `k, v, -1` behind the chain's tail; it returns the slot's old value, or 0 after an append (through `PutSpec`, `PutErrors`, `PutIntoUnusedSlot`, `PutOverwritesHead`, `PutAppends`) |
| Scenarios.TwoPuts | src/com/company/LongLongMap.java:76-95 | on a 192-byte block (six slots, two overflow records), `put(0, 100)` fills slot 0, and `put(6, 200)` collides, takes overflow record 6 at offset 144 and links it from slot 0 |
| Scenarios.ThreePuts | src/com/company/LongLongMap.java:82-96 | a further `put(6, 300)` compares only with slot 0's key 0, so it appends a duplicate record for 6 behind the first instead of replacing it |
| Scenarios.SmallBlockScenario | src/com/company/LongLongMap.java:82-99 | on that block `get(6)` returns 200, the first value for 6; the next collision throws "Out of elements"; `get(1)` on the never-written slot 1 faults |

## Left out

- `unsafe.reallocateMemory` and `unsafe.setMemory` (lines 48, 54) are foreign calls. The block is a fresh array of zero-filled records owned by the object.
- Absolute addresses: offsets are relative to the start of the block, and a link holds the relative byte offset of its target. The block is at most `Long.MAX_VALUE` bytes, so the address arithmetic never wraps in 64 bits.
- The `getLong`/`putLong` word interface: the class and the lemmas work on an array of three-word records, and each `putLong` of the source updates one field of one record. `BlockWords` shows that this agrees with the block read as `long` words: the field offsets name the words `3i`, `3i+1` and `3i+2`, and each branch of `put` is exactly the source's sequence of word writes. Unaligned addresses, and addresses outside the block, cannot be expressed.
- The bytes after the last whole record (`size % 24`) are never addressed by the source and are not represented.
- `System.out.println(toString())` before the exception (line 98) is console output.
- The commented-out bitmask addressing (line 169) is dead code.
- Thread safety: the source has none and claims none.
- Maps.LongLongMap.constructor: requires `size >= 0`. A negative size is rejected by `reallocateMemory`, a foreign call.
- Maps.LongLongMap.GetLastNode: requires the starting record to be occupied. `put` only calls it on an occupied slot; from a never-written record the source loop would follow address 0.
- The JVM crash at address 0 is modelled as the error value `InvalidAddress`, not as a crash.
