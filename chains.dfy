/** The map's behaviour stated on a snapshot of its block: which record patterns a
    well-formed block can hold, the chains they encode, and what `get` and `put` do. */
module Chains {
  import opened Int64
  import opened Layout

  /** The exceptions and crashes of the original, as values. */
  datatype Error =
    | DivisionByZero   // `k % countNode` with `countNode == 0`
    | OutOfElements    // the overflow area is used up
    | InvalidAddress   // a `next` word still holding the zero fill is followed as an address

  datatype Result<T> = Ok(value: T) | Err(error: Error)

  /** One record of the block: its three `long` words. */
  datatype Node = Node(key: i64, value: i64, next: i64)

  /** The block's records together with the two allocation counters of the map. */
  datatype State = State(nodes: seq<Node>, lastListCellAddress: int, countListNode: int)

  /** What a successful `put` leaves behind and returns. */
  datatype Stored = Stored(state: State, previous: i64)

  /** A record as the zero fill leaves it. */
  const EMPTY: Node := Node(0, 0, DEFAULT_VALUE)

  /** Records written so far lie in the primary table or the used overflow prefix. */
  function Used(g: Geometry, s: State): int
  {
    g.countNode + s.countListNode
  }

  /** `next` is a link: neither sentinel. */
  predicate IsLink(next: i64)
  {
    next != DEFAULT_VALUE && next != HAS_ELEMENT_ADDRESS
  }

  /** Index of the record a link points at. */
  function Target(next: i64): int
  {
    next as int / NODE_SIZE
  }

  /** Record `i` is consistent with the sentinel encoding: an unused record is a
      zero-filled primary slot; a used primary slot holds a key of that slot; a link
      points forward, into the used overflow prefix, at a record whose key has the same
      slot as this record's key. */
  ghost predicate RecordOk(g: Geometry, nodes: seq<Node>, used: int, i: int)
    ensures 0 <= i < |nodes| && RecordOk(g, nodes, used, i) ==>
      (nodes[i].next == DEFAULT_VALUE <==> i < g.countNode && nodes[i] == EMPTY)
  {
    0 <= i < |nodes| && 0 < g.countNode <= MAX &&
    var n := nodes[i];
    (n.next == DEFAULT_VALUE ==> i < g.countNode && n == EMPTY) &&
    (i < g.countNode && n.next != DEFAULT_VALUE ==> SlotIndex(g.countNode, n.key) == i) &&
    (IsLink(n.next) ==>
       n.next as int % NODE_SIZE == 0 &&
       g.countNode <= Target(n.next) < g.countNode + used && i < Target(n.next) < |nodes| &&
       SlotIndex(g.countNode, nodes[Target(n.next)].key) == SlotIndex(g.countNode, n.key))
  }

  /** The map's invariant: the geometry is the constructor's split of the block, there is
      one record per 24 bytes, the bump pointer sits right after the used overflow prefix,
      every used record is consistent, and the overflow records not yet handed out still
      hold the zero fill. */
  ghost predicate Inv(g: Geometry, s: State)
    ensures Inv(g, s) ==>
      s.lastListCellAddress == Used(g, s) * NODE_SIZE &&
      Used(g, s) <= |s.nodes| && |s.nodes| * NODE_SIZE <= g.size
  {
    0 <= g.size <= MAX && g == Plan(g.size) &&
    |s.nodes| == g.countNode + g.countListCells &&
    0 <= s.countListNode <= g.countListCells &&
    s.lastListCellAddress == OverflowStart(g) + s.countListNode * NODE_SIZE &&
    (forall i | 0 <= i < Used(g, s) :: RecordOk(g, s.nodes, s.countListNode, i)) &&
    (forall i | Used(g, s) <= i < |s.nodes| :: s.nodes[i] == EMPTY)
  }

  /** The block as the constructor leaves it: all zero, no overflow record used. */
  function InitialState(size: int): (s: State)
    requires 0 <= size
    ensures |s.nodes| * NODE_SIZE <= size < (|s.nodes| + 1) * NODE_SIZE
    ensures s.countListNode == 0 && s.lastListCellAddress == Plan(size).countNode * NODE_SIZE
    ensures forall i | 0 <= i < |s.nodes| :: s.nodes[i].next == DEFAULT_VALUE
  {
    var g := Plan(size);
    State(seq(g.countNode + g.countListCells, _ => EMPTY), OverflowStart(g), 0)
  }

  /** The records visited from record `i` by following `next` until a sentinel. */
  ghost function ChainFrom(g: Geometry, s: State, i: int): (c: seq<int>)
    requires Inv(g, s) && 0 <= i < Used(g, s)
    ensures |c| >= 1 && c[0] == i
    ensures forall n | 0 <= n < |c| :: i <= c[n] < Used(g, s)
    ensures forall n | 0 < n < |c| :: g.countNode <= c[n]
    decreases |s.nodes| - i
  {
    if IsLink(s.nodes[i].next) then
      assert RecordOk(g, s.nodes, s.countListNode, i);
      [i] + ChainFrom(g, s, Target(s.nodes[i].next))
    else [i]
  }

  /** The last record of the chain from `i`: what `getLastNode` finds. */
  ghost function ChainTail(g: Geometry, s: State, i: int): (t: int)
    requires Inv(g, s) && 0 <= i < Used(g, s)
    ensures i <= t < Used(g, s)
    ensures t == i || g.countNode <= t
  {
    var c := ChainFrom(g, s, i); c[|c| - 1]
  }

  /** The walk of the private `get(nodeAddress, k)` from record `i`. It faults exactly
      when it starts on an unused primary slot and `k` is not that slot's zero key. */
  ghost function SearchFrom(g: Geometry, s: State, i: int, k: i64): (r: Result<i64>)
    requires Inv(g, s) && 0 <= i < Used(g, s)
    ensures r.Err? <==> s.nodes[i].next == DEFAULT_VALUE && s.nodes[i].key != k
    ensures r.Err? ==> r.error == InvalidAddress
    decreases |s.nodes| - i
  {
    var n := s.nodes[i];
    if n.key == k then Ok(n.value)
    else if n.next == HAS_ELEMENT_ADDRESS then Ok(0)
    else if n.next == DEFAULT_VALUE then Err(InvalidAddress)
    else
      assert RecordOk(g, s.nodes, s.countListNode, i);
      assert RecordOk(g, s.nodes, s.countListNode, Target(n.next));
      SearchFrom(g, s, Target(n.next), k)
  }

  /** `get(k)`: the walk from the key's primary slot. */
  ghost function GetSpec(g: Geometry, s: State, k: i64): (r: Result<i64>)
    requires Inv(g, s)
    ensures r == Err(DivisionByZero) <==> g.countNode == 0
    ensures r == Err(InvalidAddress) <==>
      0 < g.countNode && s.nodes[SlotIndex(g.countNode, k)].next == DEFAULT_VALUE && k != 0
  {
    if g.countNode == 0 then Err(DivisionByZero)
    else
      var slot := SlotIndex(g.countNode, k);
      assert RecordOk(g, s.nodes, s.countListNode, slot);
      SearchFrom(g, s, slot, k)
  }

  /** First position in `c` whose record holds key `k`, or `|c|` if there is none. */
  ghost function KeyIndex(nodes: seq<Node>, c: seq<int>, k: i64): (n: nat)
    requires forall m | 0 <= m < |c| :: 0 <= c[m] < |nodes|
    ensures n <= |c|
    ensures n < |c| ==> nodes[c[n]].key == k
    ensures forall m | 0 <= m < n :: nodes[c[m]].key != k
  {
    if c == [] then 0
    else if nodes[c[0]].key == k then 0
    else 1 + KeyIndex(nodes, c[1..], k)
  }

  /** `put(k, v)`: the new state and the returned value, or the exception. */
  ghost function PutSpec(g: Geometry, s: State, k: i64, v: i64): (r: Result<Stored>)
    requires Inv(g, s)
    ensures r.Err? ==> r.error != InvalidAddress
    ensures r.Ok? ==>
      |r.value.state.nodes| == |s.nodes| &&
      s.countListNode <= r.value.state.countListNode <= s.countListNode + 1 &&
      r.value.state.lastListCellAddress ==
        s.lastListCellAddress + (r.value.state.countListNode - s.countListNode) * NODE_SIZE
  {
    if g.countNode == 0 then Err(DivisionByZero)
    else
      var slot := SlotIndex(g.countNode, k);
      var head := s.nodes[slot];
      if head.next == DEFAULT_VALUE then
        Ok(Stored(s.(nodes := s.nodes[slot := Node(k, v, HAS_ELEMENT_ADDRESS)]), head.value))
      else if head.key == k then
        Ok(Stored(s.(nodes := s.nodes[slot := head.(value := v)]), head.value))
      else if s.countListNode < g.countListCells then
        Ok(Stored(Appended(g, s, slot, k, v), 0))
      else Err(OutOfElements)
  }

  /** The state after linking the next free overflow record, holding `k` and `v`, behind
      the tail of the chain from `slot`, and advancing the bump pointer. */
  ghost function Appended(g: Geometry, s: State, slot: int, k: i64, v: i64): (s': State)
    requires Inv(g, s) && 0 <= slot < Used(g, s) && s.countListNode < g.countListCells
    ensures |s'.nodes| == |s.nodes|
    ensures s'.countListNode == s.countListNode + 1 &&
      s'.lastListCellAddress == s.lastListCellAddress + NODE_SIZE
    ensures s'.nodes[ChainTail(g, s, slot)].next as int == s.lastListCellAddress
    ensures s'.nodes[Used(g, s)] == Node(k, v, HAS_ELEMENT_ADDRESS)
  {
    var tail := ChainTail(g, s, slot);
    var cell := Used(g, s);
    State(s.nodes[tail := s.nodes[tail].(next := (cell * NODE_SIZE) as i64)][cell := Node(k, v, HAS_ELEMENT_ADDRESS)],
          s.lastListCellAddress + NODE_SIZE, s.countListNode + 1)
  }
}
