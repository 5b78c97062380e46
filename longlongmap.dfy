/** The map object itself: the block as an array of records, the two allocation
    counters it updates in place, and `put`/`get` as the loops the original runs. */
module Maps {
  import opened Int64
  import opened Layout
  import opened Chains
  import opened ChainLemmas

  class LongLongMap {
    /** Size of the block in bytes. */
    const size: int
    /** Records in the overflow area. */
    const countListCells: int
    /** Records in the primary table. */
    const countNode: int
    /** Byte offset of the next free overflow record (the bump pointer). */
    var lastListCellAddress: int
    /** Overflow records handed out so far. */
    var countListNode: int
    /** The block, one element per 24-byte record. */
    const mem: array<Node>

    ghost function Geo(): Geometry
    {
      Geometry(size, countNode, countListCells)
    }

    /** The block and the counters as a value. */
    ghost function Snapshot(): State
      reads this, mem
    {
      State(mem[..], lastListCellAddress, countListNode)
    }

    ghost predicate Valid()
      reads this, mem
    {
      Inv(Geo(), Snapshot())
    }

    /** Splits the block into a primary table and an overflow area and fills it with
        zeros. */
    constructor (size: i64)
      requires 0 <= size
      ensures Valid()
      ensures Geo() == Plan(size as int)
      ensures Snapshot() == InitialState(size as int)
      ensures fresh(mem)
    {
      var countCells := size as int / LONG_BYTE_SIZE / NODE_ELEMENTS;
      var listCells := countCells / LIST_PROPORTION;
      var nodes := countCells - listCells;
      this.size := size as int;
      countListCells := listCells;
      countNode := nodes;
      lastListCellAddress := nodes * NODE_SIZE;
      countListNode := 0;
      mem := new Node[nodes + listCells](_ => EMPTY);
      new;
      InitialInv(size as int);
    }

    /** `getNodeAddress`: byte offset of the primary slot of `k`, or the
        `ArithmeticException` of `k % 0` when the primary table is empty. */
    method GetNodeAddress(k: i64) returns (r: Result<int>)
      requires Valid()
      ensures countNode == 0 <==> r == Err(DivisionByZero)
      ensures r.Err? ==> r.error == DivisionByZero
      ensures r.Ok? ==>
        0 < countNode && r.value % NODE_SIZE == 0 &&
        r.value / NODE_SIZE == SlotIndex(countNode, k) && r.value / NODE_SIZE == Magnitude(k as int) % countNode
    {
      if countNode == 0 {
        return Err(DivisionByZero);
      }
      var shift := Abs(Rem(k, countNode as i64));
      SlotIndexIsMagnitudeMod(countNode, k);
      r := Ok(shift as int * NODE_SIZE);
      assert r.value == NodeAddress(countNode, k);
    }

    /** `getLastNode`: follows the links from an occupied record to the end of its
        chain. The invariant's forward links make the walk terminate. */
    method GetLastNode(node: int) returns (last: int)
      requires Valid() && 0 <= node < Used(Geo(), Snapshot()) && mem[node].next != DEFAULT_VALUE
      ensures last == ChainTail(Geo(), Snapshot(), node)
      ensures 0 <= last < Used(Geo(), Snapshot()) && mem[last].next == HAS_ELEMENT_ADDRESS
    {
      last := node;
      var nextAddressVal := mem[last].next;
      while nextAddressVal != HAS_ELEMENT_ADDRESS
        invariant 0 <= last < Used(Geo(), Snapshot())
        invariant nextAddressVal == mem[last].next && nextAddressVal != DEFAULT_VALUE
        invariant ChainTail(Geo(), Snapshot(), last) == ChainTail(Geo(), Snapshot(), node)
        decreases mem.Length - last
      {
        LinkStep(Geo(), Snapshot(), last);
        last := Target(nextAddressVal);
        nextAddressVal := mem[last].next;
      }
      SearchStop(Geo(), Snapshot(), last, 0);
    }

    /** The private `get(nodeAddress, k)`: the walk along the chain from `node`. Where
        the original follows a `next` still holding the zero fill, it reads address 0;
        the model returns `InvalidAddress` there. */
    method GetFromNode(node: int, k: i64) returns (r: Result<i64>)
      requires Valid() && 0 <= node < Used(Geo(), Snapshot())
      ensures r == SearchFrom(Geo(), Snapshot(), node, k)
    {
      var at := node;
      var key := mem[at].key;
      if key == k {
        return Ok(mem[at].value);
      }
      var nextAddressVal := mem[at].next;
      while nextAddressVal != HAS_ELEMENT_ADDRESS
        invariant 0 <= at < Used(Geo(), Snapshot())
        invariant nextAddressVal == mem[at].next && mem[at].key != k
        invariant SearchFrom(Geo(), Snapshot(), at, k) == SearchFrom(Geo(), Snapshot(), node, k)
        decreases mem.Length - at
      {
        if nextAddressVal == DEFAULT_VALUE {
          return Err(InvalidAddress);
        }
        SearchStep(Geo(), Snapshot(), at, k);
        at := Target(nextAddressVal);
        key := mem[at].key;
        if key == k {
          return Ok(mem[at].value);
        }
        nextAddressVal := mem[at].next;
      }
      return Ok(0);
    }

    /** `get(k)`: the walk from the key's primary slot. */
    method Get(k: i64) returns (r: Result<i64>)
      requires Valid()
      ensures r == GetSpec(Geo(), Snapshot(), k)
    {
      var nodeAddress := GetNodeAddress(k);
      if nodeAddress.Err? {
        return Err(nodeAddress.error);
      }
      r := GetFromNode(nodeAddress.value / NODE_SIZE, k);
    }

    /** The collision branch of `put` once the chain's tail is known: takes the record
        at the bump pointer, advances the pointer, links the tail to the record and
        fills it with `k`, `v` and the end-of-chain marker. */
    method AppendAfter(lastNodeOfList: int, k: i64, v: i64)
      requires Valid() && 0 <= lastNodeOfList < Used(Geo(), Snapshot())
      requires countListNode < countListCells
      modifies this, mem
      ensures lastListCellAddress == old(lastListCellAddress) + NODE_SIZE
      ensures countListNode == old(countListNode) + 1
      ensures mem[..] == old(mem[..])[lastNodeOfList := old(mem[lastNodeOfList]).(next := old(lastListCellAddress) as i64)]
                                     [Used(Geo(), old(Snapshot())) := Node(k, v, HAS_ELEMENT_ADDRESS)]
    {
      assert lastListCellAddress == Used(Geo(), Snapshot()) * NODE_SIZE;
      var newNode := lastListCellAddress;
      lastListCellAddress := lastListCellAddress + NODE_SIZE;
      mem[lastNodeOfList] := mem[lastNodeOfList].(next := newNode as i64);
      var cell := RecordIndex(newNode);
      mem[cell] := mem[cell].(key := k);
      mem[cell] := mem[cell].(value := v);
      mem[cell] := mem[cell].(next := HAS_ELEMENT_ADDRESS);
      countListNode := countListNode + 1;
    }

    /** `put(k, v)`: writes an unused slot, overwrites the value at the slot when the
        slot's own key is `k`, and otherwise appends a record behind the chain's tail;
        returns the value read at the slot, or 0 after an append. On an exception
        nothing has been written. */
    method Put(k: i64, v: i64) returns (r: Result<i64>)
      requires Valid()
      modifies this, mem
      ensures Valid()
      ensures PutSpec(Geo(), old(Snapshot()), k, v).Ok? ==>
        r == Ok(PutSpec(Geo(), old(Snapshot()), k, v).value.previous) &&
        Snapshot() == PutSpec(Geo(), old(Snapshot()), k, v).value.state
      ensures PutSpec(Geo(), old(Snapshot()), k, v).Err? ==>
        r == Err(PutSpec(Geo(), old(Snapshot()), k, v).error) && Snapshot() == old(Snapshot())
    {
      ghost var s := Snapshot();
      ghost var expected := PutSpec(Geo(), s, k, v);
      if expected.Ok? {
        PutPreservesInv(Geo(), s, k, v);
      }
      var nodeAddress := GetNodeAddress(k);
      if nodeAddress.Err? {
        return Err(nodeAddress.error);
      }
      var node := nodeAddress.value / NODE_SIZE;
      var oldKey := mem[node].key;
      var oldVal := mem[node].value;
      var nextAddressVal := mem[node].next;
      if nextAddressVal == DEFAULT_VALUE {
        assert expected == Ok(Stored(s.(nodes := s.nodes[node := Node(k, v, HAS_ELEMENT_ADDRESS)]), oldVal));
        mem[node] := mem[node].(key := k);
        mem[node] := mem[node].(value := v);
        mem[node] := mem[node].(next := HAS_ELEMENT_ADDRESS);
        assert mem[..] == s.nodes[node := Node(k, v, HAS_ELEMENT_ADDRESS)];
      } else if oldKey == k {
        assert expected == Ok(Stored(s.(nodes := s.nodes[node := s.nodes[node].(value := v)]), oldVal));
        mem[node] := mem[node].(value := v);
        assert mem[..] == s.nodes[node := s.nodes[node].(value := v)];
      } else if countListNode < countListCells {
        var lastNodeOfList := GetLastNode(node);
        PutAppends(Geo(), s, k, v);
        AppendAfter(lastNodeOfList, k, v);
        assert Snapshot() == expected.value.state;
        return Ok(0);
      } else {
        return Err(OutOfElements);
      }
      assert Snapshot() == expected.value.state;
      return Ok(oldVal);
    }
  }
}
