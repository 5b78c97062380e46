/** The block as the original addresses it: a sequence of `long` words, read and written
    one at a time by `getLong` and `putLong` at the offsets of the field helpers. The rest
    of the model works on whole records; this module shows that the two views agree. */
module BlockWords {
  import opened Int64
  import opened Layout
  import opened Chains
  import opened ChainLemmas

  /** Word `f` of a record: 0 is the key, 1 the value, 2 the link. */
  function Field(n: Node, f: int): i64
  {
    if f == 0 then n.key else if f == 1 then n.value else n.next
  }

  /** The records laid end to end, NODE_ELEMENTS words each. */
  function Words(nodes: seq<Node>): (w: seq<i64>)
    ensures |w| * LONG_BYTE_SIZE == |nodes| * NODE_SIZE
  {
    seq(NODE_ELEMENTS * |nodes|, j requires 0 <= j < NODE_ELEMENTS * |nodes| =>
      Field(nodes[j / NODE_ELEMENTS], j % NODE_ELEMENTS))
  }

  /** `getLong` at the three field offsets of record `i` reads its key, its value and
      its link. */
  lemma ReadFields(nodes: seq<Node>, i: int)
    requires 0 <= i < |nodes|
    ensures Words(nodes)[KeyAddress(i * NODE_SIZE) / LONG_BYTE_SIZE] == nodes[i].key
    ensures Words(nodes)[ValueAddress(i * NODE_SIZE) / LONG_BYTE_SIZE] == nodes[i].value
    ensures Words(nodes)[NextAddress(i * NODE_SIZE) / LONG_BYTE_SIZE] == nodes[i].next
  {
    assert (i * NODE_SIZE) % NODE_SIZE == 0 && (i * NODE_SIZE) / NODE_SIZE == i;
  }

  /** `putLong` at one field offset of record `i` changes that field of that record and
      nothing else. */
  lemma WriteFields(nodes: seq<Node>, i: int, x: i64)
    requires 0 <= i < |nodes|
    ensures Words(nodes[i := nodes[i].(key := x)]) ==
      Words(nodes)[KeyAddress(i * NODE_SIZE) / LONG_BYTE_SIZE := x]
    ensures Words(nodes[i := nodes[i].(value := x)]) ==
      Words(nodes)[ValueAddress(i * NODE_SIZE) / LONG_BYTE_SIZE := x]
    ensures Words(nodes[i := nodes[i].(next := x)]) ==
      Words(nodes)[NextAddress(i * NODE_SIZE) / LONG_BYTE_SIZE := x]
  {
    assert (i * NODE_SIZE) % NODE_SIZE == 0 && (i * NODE_SIZE) / NODE_SIZE == i;
  }

  /** The three writes that fill record `i` with `k`, `v` and the end-of-chain marker. */
  lemma WriteRecord(nodes: seq<Node>, i: int, k: i64, v: i64)
    requires 0 <= i < |nodes|
    ensures Words(nodes[i := Node(k, v, HAS_ELEMENT_ADDRESS)]) ==
      Words(nodes)[KeyAddress(i * NODE_SIZE) / LONG_BYTE_SIZE := k]
                  [ValueAddress(i * NODE_SIZE) / LONG_BYTE_SIZE := v]
                  [NextAddress(i * NODE_SIZE) / LONG_BYTE_SIZE := HAS_ELEMENT_ADDRESS]
  {
    var n1 := nodes[i := nodes[i].(key := k)];
    var n2 := n1[i := n1[i].(value := v)];
    var n3 := n2[i := n2[i].(next := HAS_ELEMENT_ADDRESS)];
    WriteFields(nodes, i, k);
    WriteFields(n1, i, v);
    WriteFields(n2, i, HAS_ELEMENT_ADDRESS);
    assert n3 == nodes[i := Node(k, v, HAS_ELEMENT_ADDRESS)];
  }

  /** `put` on an unused slot, as words: the three `putLong` calls on the slot's key,
      value and link. */
  lemma FillWrites(g: Geometry, s: State, k: i64, v: i64)
    requires Inv(g, s) && 0 < g.countNode
    requires s.nodes[SlotIndex(g.countNode, k)].next == DEFAULT_VALUE
    ensures var slot := SlotIndex(g.countNode, k);
      PutSpec(g, s, k, v).Ok? &&
      Words(PutSpec(g, s, k, v).value.state.nodes) ==
        Words(s.nodes)[KeyAddress(slot * NODE_SIZE) / LONG_BYTE_SIZE := k]
                      [ValueAddress(slot * NODE_SIZE) / LONG_BYTE_SIZE := v]
                      [NextAddress(slot * NODE_SIZE) / LONG_BYTE_SIZE := HAS_ELEMENT_ADDRESS]
  {
    WriteRecord(s.nodes, SlotIndex(g.countNode, k), k, v);
  }

  /** `put` on a slot whose own key is `k`, as words: one `putLong` on the slot's value. */
  lemma OverwriteWrites(g: Geometry, s: State, k: i64, v: i64)
    requires Inv(g, s) && 0 < g.countNode
    requires s.nodes[SlotIndex(g.countNode, k)].next != DEFAULT_VALUE
    requires s.nodes[SlotIndex(g.countNode, k)].key == k
    ensures var slot := SlotIndex(g.countNode, k);
      PutSpec(g, s, k, v).Ok? &&
      Words(PutSpec(g, s, k, v).value.state.nodes) ==
        Words(s.nodes)[ValueAddress(slot * NODE_SIZE) / LONG_BYTE_SIZE := v]
  {
    WriteFields(s.nodes, SlotIndex(g.countNode, k), v);
  }

  /** `put` after a collision, as words: one `putLong` links the chain's tail to the
      record at `lastListCellAddress`, and three more fill that record. */
  lemma AppendWrites(g: Geometry, s: State, k: i64, v: i64)
    requires Inv(g, s) && 0 < g.countNode
    requires s.nodes[SlotIndex(g.countNode, k)].next != DEFAULT_VALUE
    requires s.nodes[SlotIndex(g.countNode, k)].key != k
    requires s.countListNode < g.countListCells
    ensures var tail := ChainTail(g, s, SlotIndex(g.countNode, k));
      var newNode := s.lastListCellAddress;
      PutSpec(g, s, k, v).Ok? && 0 < newNode <= MAX &&
      Words(PutSpec(g, s, k, v).value.state.nodes) ==
        Words(s.nodes)[NextAddress(tail * NODE_SIZE) / LONG_BYTE_SIZE := newNode as i64]
                      [KeyAddress(newNode) / LONG_BYTE_SIZE := k]
                      [ValueAddress(newNode) / LONG_BYTE_SIZE := v]
                      [NextAddress(newNode) / LONG_BYTE_SIZE := HAS_ELEMENT_ADDRESS]
  {
    var slot := SlotIndex(g.countNode, k);
    var tail := ChainTail(g, s, slot);
    var cell := Used(g, s);
    PutAppends(g, s, k, v);
    TailOfSlot(g, s, slot);
    var n1 := s.nodes[tail := s.nodes[tail].(next := (cell * NODE_SIZE) as i64)];
    WriteFields(s.nodes, tail, (cell * NODE_SIZE) as i64);
    WriteRecord(n1, cell, k, v);
    assert Appended(g, s, slot, k, v).nodes == n1[cell := Node(k, v, HAS_ELEMENT_ADDRESS)];
  }
}
