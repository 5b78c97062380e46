/** How the map lays its records out in the block: the record format, the split of the
    block into a primary table and an overflow area, and the key-to-slot addressing. */
module Layout {
  import opened Int64

  /** Bytes in a `long`. */
  const LONG_BYTE_SIZE: int := 8
  /** Words in a record: key, value, next. */
  const NODE_ELEMENTS: int := 3
  /** Bytes in a record: NODE_ELEMENTS words of LONG_BYTE_SIZE bytes. */
  const NODE_SIZE: int := 24
  /** One record in LIST_PROPORTION goes to the overflow area. */
  const LIST_PROPORTION: int := 3
  /** `next` of an occupied record that ends its chain. */
  const HAS_ELEMENT_ADDRESS: i64 := -1
  /** The fill value of the block; as a `next` it marks a record never written. */
  const DEFAULT_VALUE: i64 := 0

  /** `getKeyAddress`: the key is the first word of the record at byte offset `node`;
      for record `i` it is word `3i` of the block. */
  function KeyAddress(node: int): (a: int)
    ensures node % NODE_SIZE == 0 ==>
      a % LONG_BYTE_SIZE == 0 && a / LONG_BYTE_SIZE == NODE_ELEMENTS * (node / NODE_SIZE)
  {
    node
  }

  /** `getValueAddress`: the value is the second word, word `3i + 1` for record `i`. */
  function ValueAddress(node: int): (a: int)
    ensures node % NODE_SIZE == 0 ==>
      a % LONG_BYTE_SIZE == 0 && a / LONG_BYTE_SIZE == NODE_ELEMENTS * (node / NODE_SIZE) + 1
  {
    node + LONG_BYTE_SIZE
  }

  /** `getNextAddress`: the link is the third word, word `3i + 2` for record `i`. */
  function NextAddress(node: int): (a: int)
    ensures node % NODE_SIZE == 0 ==>
      a % LONG_BYTE_SIZE == 0 && a / LONG_BYTE_SIZE == NODE_ELEMENTS * (node / NODE_SIZE) + 2
  {
    node + LONG_BYTE_SIZE * 2
  }

  /** The block's size in bytes and the two record counts derived from it. */
  datatype Geometry = Geometry(size: int, countNode: int, countListCells: int)

  /** The capacity split done once by the constructor. */
  function Plan(size: int): (g: Geometry)
    requires 0 <= size
    ensures g.size == size
    ensures 0 <= g.countListCells <= g.countNode
    ensures (g.countNode + g.countListCells) * NODE_SIZE <= size
    ensures size < (g.countNode + g.countListCells + 1) * NODE_SIZE
    ensures g.countListCells == (g.countNode + g.countListCells) / LIST_PROPORTION
    ensures g.countNode == 0 <==> size < NODE_SIZE
    ensures g.countListCells == 0 <==> size < 3 * NODE_SIZE
  {
    var countCells := size / LONG_BYTE_SIZE / NODE_ELEMENTS;
    var countListCells := countCells / LIST_PROPORTION;
    Geometry(size, countCells - countListCells, countListCells)
  }

  /** Byte offset of the first overflow record. */
  function OverflowStart(g: Geometry): (o: int)
    ensures 0 <= g.size && g == Plan(g.size) ==>
      0 <= o && o + g.countListCells * NODE_SIZE <= g.size
  {
    g.countNode * NODE_SIZE
  }

  /** Index of the primary slot of key `k`: `Math.abs(k % countNode)`. */
  function SlotIndex(countNode: int, k: i64): (s: int)
    requires 0 < countNode <= MAX
    ensures 0 <= s < countNode
  {
    Abs(Rem(k, countNode as i64)) as int
  }

  /** The slot is the magnitude of the key modulo `countNode`, for every `long` including
      `Long.MIN_VALUE`: the magnitude is taken after the remainder, which is already
      smaller than `countNode`, so `Math.abs` never sees the value it cannot negate. */
  lemma SlotIndexIsMagnitudeMod(countNode: int, k: i64)
    requires 0 < countNode <= MAX
    ensures SlotIndex(countNode, k) == Magnitude(k as int) % countNode
  {
  }

  /** Index of the record that starts at byte offset `address`. */
  function RecordIndex(address: int): (i: int)
    ensures address % NODE_SIZE == 0 ==> i * NODE_SIZE == address
  {
    address / NODE_SIZE
  }

  /** Byte offset of the primary slot of key `k`. */
  function NodeAddress(countNode: int, k: i64): (a: int)
    requires 0 < countNode <= MAX
    ensures a % NODE_SIZE == 0 && 0 <= a / NODE_SIZE < countNode
    ensures a / NODE_SIZE == SlotIndex(countNode, k)
  {
    SlotIndex(countNode, k) * NODE_SIZE
  }
}
