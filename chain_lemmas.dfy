/** Properties of the block-level model: the shape of chains, what `get` finds, and
    what one `put` does to the invariant and to later lookups. */
module ChainLemmas {
  import opened Int64
  import opened Layout
  import opened Chains

  /** Position `n` of `c` links to position `n + 1`, at a strictly higher index. */
  ghost predicate LinksAt(nodes: seq<Node>, c: seq<int>, n: int)
    requires 0 <= n < |c| - 1 && 0 <= c[n] < |nodes|
  {
    c[n] < c[n + 1] && IsLink(nodes[c[n]].next) && Target(nodes[c[n]].next) == c[n + 1]
  }

  /** A chain follows the links: each record but the last links to the next one, at a
      strictly higher index, so no record is visited twice. */
  lemma {:induction false} ChainLinks(g: Geometry, s: State, i: int)
    requires Inv(g, s) && 0 <= i < Used(g, s)
    ensures forall n | 0 <= n < |ChainFrom(g, s, i)| - 1 :: LinksAt(s.nodes, ChainFrom(g, s, i), n)
    decreases |s.nodes| - i
  {
    if IsLink(s.nodes[i].next) {
      LinkStep(g, s, i);
      var j := Target(s.nodes[i].next);
      ChainLinks(g, s, j);
      var c, d := ChainFrom(g, s, i), ChainFrom(g, s, j);
      forall n | 0 <= n < |c| - 1 ensures LinksAt(s.nodes, c, n) {
        if n > 0 {
          assert LinksAt(s.nodes, d, n - 1);
          assert c[n] == d[n - 1] && c[n + 1] == d[n];
        }
      }
    }
  }

  /** A chain ends in a sentinel, and every key in it has the slot of the first
      record's key. */
  lemma {:induction false} ChainEnd(g: Geometry, s: State, i: int)
    requires Inv(g, s) && 0 <= i < Used(g, s)
    ensures !IsLink(s.nodes[ChainTail(g, s, i)].next)
    ensures forall n | 0 <= n < |ChainFrom(g, s, i)| ::
      SlotIndex(g.countNode, s.nodes[ChainFrom(g, s, i)[n]].key) == SlotIndex(g.countNode, s.nodes[i].key)
    decreases |s.nodes| - i
  {
    assert RecordOk(g, s.nodes, s.countListNode, i);
    if IsLink(s.nodes[i].next) {
      var j := Target(s.nodes[i].next);
      ChainEnd(g, s, j);
      var c, d := ChainFrom(g, s, i), ChainFrom(g, s, j);
      assert c == [i] + d;
      forall n | 1 <= n < |c| ensures SlotIndex(g.countNode, s.nodes[c[n]].key) == SlotIndex(g.countNode, s.nodes[i].key) {
        assert c[n] == d[n - 1];
      }
    }
  }

  /** In the chain of an occupied record every record is occupied and the chain ends
      in `-1`: the walk never meets the zero fill. */
  lemma OccupiedChain(g: Geometry, s: State, i: int)
    requires Inv(g, s) && 0 <= i < Used(g, s) && s.nodes[i].next != DEFAULT_VALUE
    ensures forall n | 0 <= n < |ChainFrom(g, s, i)| :: s.nodes[ChainFrom(g, s, i)[n]].next != DEFAULT_VALUE
    ensures s.nodes[ChainTail(g, s, i)].next == HAS_ELEMENT_ADDRESS
  {
    var c := ChainFrom(g, s, i);
    ChainEnd(g, s, i);
    forall n | 0 <= n < |c| ensures s.nodes[c[n]].next != DEFAULT_VALUE {
      assert RecordOk(g, s.nodes, s.countListNode, c[n]);
    }
  }

  /** The constructor's zero-filled block satisfies the invariant. */
  lemma InitialInv(size: int)
    requires 0 <= size <= MAX
    ensures Inv(Plan(size), InitialState(size))
  {
    var g, s := Plan(size), InitialState(size);
    forall i | 0 <= i < Used(g, s) ensures RecordOk(g, s.nodes, s.countListNode, i) {
      assert s.nodes[i] == EMPTY;
    }
  }

  /** On a fresh map `get` faults for every key except 0, whose zero-filled slot
      happens to "hold" key 0 with value 0. */
  lemma InitialGet(size: int, k: i64)
    requires 0 <= size <= MAX
    ensures Inv(Plan(size), InitialState(size))
    ensures GetSpec(Plan(size), InitialState(size), k) ==
      if size < NODE_SIZE then Err(DivisionByZero)
      else if k == 0 then Ok(0)
      else Err(InvalidAddress)
  {
    InitialInv(size);
    var g, s := Plan(size), InitialState(size);
    if 0 < g.countNode {
      assert s.nodes[SlotIndex(g.countNode, k)] == EMPTY;
    }
  }

  /** One step along a link: it moves forward inside the used records and the chain
      from the target is the rest of the chain. */
  lemma LinkStep(g: Geometry, s: State, i: int)
    requires Inv(g, s) && 0 <= i < Used(g, s) && IsLink(s.nodes[i].next)
    ensures i < Target(s.nodes[i].next) < Used(g, s)
    ensures ChainFrom(g, s, i) == [i] + ChainFrom(g, s, Target(s.nodes[i].next))
    ensures ChainTail(g, s, i) == ChainTail(g, s, Target(s.nodes[i].next))
    ensures s.nodes[Target(s.nodes[i].next)].next != DEFAULT_VALUE
  {
    assert RecordOk(g, s.nodes, s.countListNode, i);
    assert RecordOk(g, s.nodes, s.countListNode, Target(s.nodes[i].next));
  }

  lemma KeyIndexCons(nodes: seq<Node>, i: int, d: seq<int>, k: i64)
    requires 0 <= i < |nodes| && forall m | 0 <= m < |d| :: 0 <= d[m] < |nodes|
    ensures KeyIndex(nodes, [i] + d, k) == if nodes[i].key == k then 0 else 1 + KeyIndex(nodes, d, k)
  {
    assert ([i] + d)[1..] == d;
  }

  /** One step of a walk for `k` past a record holding another key: the walk, the
      position of the first match and the chain's tail are those of the rest of the
      chain, shifted by one. */
  lemma SearchStep(g: Geometry, s: State, i: int, k: i64)
    requires Inv(g, s) && 0 <= i < Used(g, s) && IsLink(s.nodes[i].next) && s.nodes[i].key != k
    ensures i < Target(s.nodes[i].next) < Used(g, s)
    ensures SearchFrom(g, s, i, k) == SearchFrom(g, s, Target(s.nodes[i].next), k)
    ensures |ChainFrom(g, s, i)| == 1 + |ChainFrom(g, s, Target(s.nodes[i].next))|
    ensures KeyIndex(s.nodes, ChainFrom(g, s, i), k) == 1 + KeyIndex(s.nodes, ChainFrom(g, s, Target(s.nodes[i].next)), k)
    ensures forall n | 0 <= n < |ChainFrom(g, s, Target(s.nodes[i].next))| ::
      ChainFrom(g, s, i)[n + 1] == ChainFrom(g, s, Target(s.nodes[i].next))[n]
    ensures ChainTail(g, s, i) == ChainTail(g, s, Target(s.nodes[i].next))
    ensures s.nodes[Target(s.nodes[i].next)].next != DEFAULT_VALUE
  {
    LinkStep(g, s, i);
    KeyIndexCons(s.nodes, i, ChainFrom(g, s, Target(s.nodes[i].next)), k);
  }

  /** A walk at a record that ends its chain looks at that record only. */
  lemma SearchStop(g: Geometry, s: State, i: int, k: i64)
    requires Inv(g, s) && 0 <= i < Used(g, s) && !IsLink(s.nodes[i].next)
    ensures ChainFrom(g, s, i) == [i] && ChainTail(g, s, i) == i
    ensures KeyIndex(s.nodes, ChainFrom(g, s, i), k) == if s.nodes[i].key == k then 0 else 1
  {
    KeyIndexCons(s.nodes, i, [], k);
  }

  /** When the chain holds `k`, the walk returns the value of its first record with
      key `k`. */
  lemma {:induction false} SearchFindsFirst(g: Geometry, s: State, i: int, k: i64)
    requires Inv(g, s) && 0 <= i < Used(g, s)
    requires KeyIndex(s.nodes, ChainFrom(g, s, i), k) < |ChainFrom(g, s, i)|
    ensures SearchFrom(g, s, i, k) == Ok(s.nodes[ChainFrom(g, s, i)[KeyIndex(s.nodes, ChainFrom(g, s, i), k)]].value)
    decreases |s.nodes| - i
  {
    var node := s.nodes[i];
    if node.key != k {
      if IsLink(node.next) {
        SearchStep(g, s, i, k);
        SearchFindsFirst(g, s, Target(node.next), k);
      } else {
        SearchStop(g, s, i, k);
      }
    }
  }

  /** When the chain does not hold `k`, the walk returns 0 if the chain ends in `-1`
      and faults if it ends in the zero fill. */
  lemma {:induction false} SearchMisses(g: Geometry, s: State, i: int, k: i64)
    requires Inv(g, s) && 0 <= i < Used(g, s)
    requires KeyIndex(s.nodes, ChainFrom(g, s, i), k) == |ChainFrom(g, s, i)|
    ensures SearchFrom(g, s, i, k) ==
      if s.nodes[ChainTail(g, s, i)].next == DEFAULT_VALUE then Err(InvalidAddress) else Ok(0)
    decreases |s.nodes| - i
  {
    var node := s.nodes[i];
    assert node.key != k;
    if IsLink(node.next) {
      SearchStep(g, s, i, k);
      SearchMisses(g, s, Target(node.next), k);
    } else {
      SearchStop(g, s, i, k);
    }
  }

  /** `get` is a first-match search of the chain: it returns the value of the first
      record in chain order whose key is `k`; with no such record it returns 0 when the
      chain ends in `-1`, and faults when it ends in the zero fill. */
  lemma SearchIsFirstMatch(g: Geometry, s: State, i: int, k: i64)
    requires Inv(g, s) && 0 <= i < Used(g, s)
    ensures KeyIndex(s.nodes, ChainFrom(g, s, i), k) < |ChainFrom(g, s, i)| ==>
      SearchFrom(g, s, i, k) == Ok(s.nodes[ChainFrom(g, s, i)[KeyIndex(s.nodes, ChainFrom(g, s, i), k)]].value)
    ensures KeyIndex(s.nodes, ChainFrom(g, s, i), k) == |ChainFrom(g, s, i)| ==>
      SearchFrom(g, s, i, k) ==
        if s.nodes[ChainTail(g, s, i)].next == DEFAULT_VALUE then Err(InvalidAddress) else Ok(0)
  {
    if KeyIndex(s.nodes, ChainFrom(g, s, i), k) < |ChainFrom(g, s, i)| {
      SearchFindsFirst(g, s, i, k);
    } else {
      SearchMisses(g, s, i, k);
    }
  }

  /** Walks that only visit records that did not change give the same result. */
  lemma {:induction false} SearchFrame(g: Geometry, s: State, s': State, i: int, k: i64)
    requires Inv(g, s) && Inv(g, s') && 0 <= i < Used(g, s) && i < Used(g, s')
    requires forall n | 0 <= n < |ChainFrom(g, s, i)| :: s'.nodes[ChainFrom(g, s, i)[n]] == s.nodes[ChainFrom(g, s, i)[n]]
    ensures SearchFrom(g, s', i, k) == SearchFrom(g, s, i, k)
    decreases |s.nodes| - i
  {
    var c := ChainFrom(g, s, i);
    var node := s.nodes[i];
    assert s'.nodes[c[0]] == node;
    if node.key != k && IsLink(node.next) {
      LinkStep(g, s, i);
      assert RecordOk(g, s'.nodes, s'.countListNode, i);
      var j := Target(node.next);
      var d := ChainFrom(g, s, j);
      forall n | 0 <= n < |d| ensures s'.nodes[d[n]] == s.nodes[d[n]] {
        assert d[n] == c[n + 1];
      }
      SearchFrame(g, s, s', j, k);
    }
  }

  /** Filling an unused primary slot keeps the invariant. */
  lemma FillSlotInv(g: Geometry, s: State, k: i64, v: i64)
    requires Inv(g, s) && 0 < g.countNode
    requires s.nodes[SlotIndex(g.countNode, k)].next == DEFAULT_VALUE
    ensures Inv(g, s.(nodes := s.nodes[SlotIndex(g.countNode, k) := Node(k, v, HAS_ELEMENT_ADDRESS)]))
  {
    var slot := SlotIndex(g.countNode, k);
    var nodes' := s.nodes[slot := Node(k, v, HAS_ELEMENT_ADDRESS)];
    forall i | 0 <= i < Used(g, s) ensures RecordOk(g, nodes', s.countListNode, i) {
      assert RecordOk(g, s.nodes, s.countListNode, i);
    }
  }

  /** Overwriting the value of an occupied primary slot keeps the invariant. */
  lemma OverwriteInv(g: Geometry, s: State, k: i64, v: i64)
    requires Inv(g, s) && 0 < g.countNode
    requires s.nodes[SlotIndex(g.countNode, k)].next != DEFAULT_VALUE
    ensures var slot := SlotIndex(g.countNode, k);
      Inv(g, s.(nodes := s.nodes[slot := s.nodes[slot].(value := v)]))
  {
    var slot := SlotIndex(g.countNode, k);
    var nodes' := s.nodes[slot := s.nodes[slot].(value := v)];
    forall i | 0 <= i < Used(g, s) ensures RecordOk(g, nodes', s.countListNode, i) {
      assert RecordOk(g, s.nodes, s.countListNode, i);
    }
  }

  /** The tail of an occupied primary chain is the slot itself or an overflow record,
      holds a key of that slot and ends in `-1`. */
  lemma TailOfSlot(g: Geometry, s: State, slot: int)
    requires Inv(g, s) && 0 <= slot < g.countNode && s.nodes[slot].next != DEFAULT_VALUE
    ensures var tail := ChainTail(g, s, slot);
      (tail == slot || g.countNode <= tail) && tail < Used(g, s) &&
      SlotIndex(g.countNode, s.nodes[tail].key) == slot &&
      s.nodes[tail].next == HAS_ELEMENT_ADDRESS
  {
    assert RecordOk(g, s.nodes, s.countListNode, slot);
    ChainEnd(g, s, slot);
    OccupiedChain(g, s, slot);
  }

  /** Linking the next overflow record behind the tail of an occupied chain keeps the
      invariant. */
  lemma AppendedInv(g: Geometry, s: State, k: i64, v: i64)
    requires Inv(g, s) && 0 < g.countNode && s.countListNode < g.countListCells
    requires s.nodes[SlotIndex(g.countNode, k)].next != DEFAULT_VALUE
    ensures Inv(g, Appended(g, s, SlotIndex(g.countNode, k), k, v))
  {
    var slot := SlotIndex(g.countNode, k);
    var tail := ChainTail(g, s, slot);
    var cell := Used(g, s);
    var s' := Appended(g, s, slot, k, v);
    TailOfSlot(g, s, slot);
    forall i | 0 <= i < Used(g, s') ensures RecordOk(g, s'.nodes, s'.countListNode, i) {
      if i == cell {
      } else if i == tail {
        assert RecordOk(g, s.nodes, s.countListNode, i);
        assert Target(s'.nodes[i].next) == cell;
      } else {
        assert RecordOk(g, s.nodes, s.countListNode, i);
      }
    }
    forall i | Used(g, s') <= i < |s'.nodes| ensures s'.nodes[i] == EMPTY {
      assert s'.nodes[i] == s.nodes[i];
    }
  }

  /** Every successful `put` keeps the invariant. */
  lemma PutPreservesInv(g: Geometry, s: State, k: i64, v: i64)
    requires Inv(g, s) && PutSpec(g, s, k, v).Ok?
    ensures Inv(g, PutSpec(g, s, k, v).value.state)
  {
    var slot := SlotIndex(g.countNode, k);
    if s.nodes[slot].next == DEFAULT_VALUE {
      FillSlotInv(g, s, k, v);
    } else if s.nodes[slot].key == k {
      OverwriteInv(g, s, k, v);
    } else {
      AppendedInv(g, s, k, v);
    }
  }

  /** `put` fails exactly in the two ways the source throws: the remainder by a zero
      `countNode`, and a collision when every overflow record is in use. */
  lemma PutErrors(g: Geometry, s: State, k: i64, v: i64)
    requires Inv(g, s)
    ensures PutSpec(g, s, k, v) == Err(DivisionByZero) <==> g.countNode == 0
    ensures PutSpec(g, s, k, v) == Err(OutOfElements) <==>
      0 < g.countNode &&
      s.nodes[SlotIndex(g.countNode, k)].next != DEFAULT_VALUE &&
      s.nodes[SlotIndex(g.countNode, k)].key != k &&
      s.countListNode == g.countListCells
    ensures PutSpec(g, s, k, v).Err? ==> PutSpec(g, s, k, v).error != InvalidAddress
  {
  }

  /** `put` on an unused primary slot writes exactly that record, as `k`, `v`, `-1`,
      leaves the counters alone and returns 0 (the slot's zero-filled value). */
  lemma PutIntoUnusedSlot(g: Geometry, s: State, k: i64, v: i64)
    requires Inv(g, s) && 0 < g.countNode
    requires s.nodes[SlotIndex(g.countNode, k)].next == DEFAULT_VALUE
    ensures PutSpec(g, s, k, v).Ok?
    ensures PutSpec(g, s, k, v).value.previous == 0
    ensures PutSpec(g, s, k, v).value.state ==
      s.(nodes := s.nodes[SlotIndex(g.countNode, k) := Node(k, v, HAS_ELEMENT_ADDRESS)])
  {
    assert RecordOk(g, s.nodes, s.countListNode, SlotIndex(g.countNode, k));
  }

  /** `put` of the key held by an occupied primary slot replaces only that record's
      value and returns the value it replaced. */
  lemma PutOverwritesHead(g: Geometry, s: State, k: i64, v: i64)
    requires Inv(g, s) && 0 < g.countNode
    requires s.nodes[SlotIndex(g.countNode, k)].next != DEFAULT_VALUE
    requires s.nodes[SlotIndex(g.countNode, k)].key == k
    ensures PutSpec(g, s, k, v).Ok?
    ensures PutSpec(g, s, k, v).value.previous == s.nodes[SlotIndex(g.countNode, k)].value
    ensures PutSpec(g, s, k, v).value.state.countListNode == s.countListNode
    ensures PutSpec(g, s, k, v).value.state.lastListCellAddress == s.lastListCellAddress
    ensures var slot := SlotIndex(g.countNode, k);
      PutSpec(g, s, k, v).value.state.nodes == s.nodes[slot := Node(k, v, s.nodes[slot].next)]
  {
  }

  /** `s'` is `s` with record `cell` filled with `k`, `v`, `-1` and linked behind the
      chain tail `tail`, and no other record changed. */
  ghost predicate AppendStep(s: State, s': State, tail: int, cell: int, k: i64, v: i64)
  {
    |s'.nodes| == |s.nodes| && 0 <= tail < cell < |s.nodes| &&
    s.nodes[tail].next == HAS_ELEMENT_ADDRESS &&
    s'.nodes[tail].key == s.nodes[tail].key && s'.nodes[tail].value == s.nodes[tail].value &&
    s'.nodes[tail].next as int == cell * NODE_SIZE &&
    s'.nodes[cell] == Node(k, v, HAS_ELEMENT_ADDRESS) &&
    forall r | 0 <= r < |s.nodes| && r != tail && r != cell :: s'.nodes[r] == s.nodes[r]
  }

  /** A collision `put` is such a step, from the tail of the key's chain to the first
      free overflow record. */
  lemma AppendedIsStep(g: Geometry, s: State, k: i64, v: i64)
    requires Inv(g, s) && 0 < g.countNode && s.countListNode < g.countListCells
    requires s.nodes[SlotIndex(g.countNode, k)].next != DEFAULT_VALUE
    ensures Inv(g, Appended(g, s, SlotIndex(g.countNode, k), k, v))
    ensures Used(g, Appended(g, s, SlotIndex(g.countNode, k), k, v)) == Used(g, s) + 1
    ensures AppendStep(s, Appended(g, s, SlotIndex(g.countNode, k), k, v),
                       ChainTail(g, s, SlotIndex(g.countNode, k)), Used(g, s), k, v)
  {
    AppendedInv(g, s, k, v);
    TailOfSlot(g, s, SlotIndex(g.countNode, k));
  }

  /** After an append step every chain that used to end at `tail` now continues to
      `cell` and ends there. */
  lemma {:induction false} AppendExtendsChain(g: Geometry, s: State, s': State, tail: int, cell: int, k: i64, v: i64, r: int)
    requires Inv(g, s) && Inv(g, s') && AppendStep(s, s', tail, cell, k, v)
    requires cell == Used(g, s) && Used(g, s') == cell + 1
    requires 0 <= r < cell && ChainTail(g, s, r) == tail
    ensures ChainFrom(g, s', r) == ChainFrom(g, s, r) + [cell]
    decreases |s.nodes| - r
  {
    var c := ChainFrom(g, s, r);
    var node := s.nodes[r];
    if r == tail {
      assert c == [r];
      assert Target(s'.nodes[r].next) == cell;
      assert ChainFrom(g, s', cell) == [cell];
    } else {
      assert IsLink(node.next);
      assert s'.nodes[r] == node;
      LinkStep(g, s, r);
      var j := Target(node.next);
      AppendExtendsChain(g, s, s', tail, cell, k, v, j);
    }
  }

  /** A collision `put` with a free overflow record takes the record at the bump
      pointer, advances the pointer by one record, links the old chain tail to it,
      fills it with `k`, `v`, `-1`, changes no other record and returns 0. */
  lemma PutAppends(g: Geometry, s: State, k: i64, v: i64)
    requires Inv(g, s) && 0 < g.countNode
    requires s.nodes[SlotIndex(g.countNode, k)].next != DEFAULT_VALUE
    requires s.nodes[SlotIndex(g.countNode, k)].key != k
    requires s.countListNode < g.countListCells
    ensures PutSpec(g, s, k, v).Ok?
    ensures PutSpec(g, s, k, v).value.previous == 0
    ensures PutSpec(g, s, k, v).value.state.countListNode == s.countListNode + 1
    ensures PutSpec(g, s, k, v).value.state.lastListCellAddress == s.lastListCellAddress + NODE_SIZE
    ensures s.lastListCellAddress == Used(g, s) * NODE_SIZE
    ensures AppendStep(s, PutSpec(g, s, k, v).value.state,
                       ChainTail(g, s, SlotIndex(g.countNode, k)), Used(g, s), k, v)
    ensures Inv(g, PutSpec(g, s, k, v).value.state)
    ensures ChainFrom(g, PutSpec(g, s, k, v).value.state, SlotIndex(g.countNode, k)) ==
      ChainFrom(g, s, SlotIndex(g.countNode, k)) + [Used(g, s)]
  {
    var slot := SlotIndex(g.countNode, k);
    var s' := Appended(g, s, slot, k, v);
    assert PutSpec(g, s, k, v) == Ok(Stored(s', 0));
    AppendedIsStep(g, s, k, v);
    AppendExtendsChain(g, s, s', ChainTail(g, s, slot), Used(g, s), k, v, slot);
  }

  /** After an append step, a walk along an extended chain finds what the old walk
      found if the old chain held the key it looks for, and otherwise reaches the new
      record. */
  lemma {:induction false} SearchAfterAppend(g: Geometry, s: State, s': State, tail: int, cell: int, k: i64, v: i64, r: int, k2: i64)
    requires Inv(g, s) && Inv(g, s') && AppendStep(s, s', tail, cell, k, v)
    requires cell == Used(g, s) && Used(g, s') == cell + 1
    requires 0 <= r < cell && ChainTail(g, s, r) == tail && s.nodes[r].next != DEFAULT_VALUE
    ensures SearchFrom(g, s', r, k2) ==
      if KeyIndex(s.nodes, ChainFrom(g, s, r), k2) < |ChainFrom(g, s, r)| then SearchFrom(g, s, r, k2)
      else if k2 == k then Ok(v)
      else Ok(0)
    decreases |s.nodes| - r
  {
    var node := s.nodes[r];
    if node.key == k2 {
    } else if r == tail {
      KeyIndexCons(s.nodes, r, [], k2);
      assert Target(s'.nodes[r].next) == cell;
    } else {
      LinkStep(g, s, r);
      assert s'.nodes[r] == node;
      var j := Target(node.next);
      KeyIndexCons(s.nodes, r, ChainFrom(g, s, j), k2);
      SearchAfterAppend(g, s, s', tail, cell, k, v, j, k2);
    }
  }

  /** `k` sits in an overflow record of its slot's chain while the slot itself holds a
      different key: `put` will not see it and appends a duplicate. */
  ghost predicate Shadowed(g: Geometry, s: State, k: i64)
    requires Inv(g, s)
  {
    0 < g.countNode &&
    var slot := SlotIndex(g.countNode, k);
    s.nodes[slot].next != DEFAULT_VALUE && s.nodes[slot].key != k &&
    KeyIndex(s.nodes, ChainFrom(g, s, slot), k) < |ChainFrom(g, s, slot)|
  }

  /** Round trip: after a successful `put(k, v)`, `get(k)` returns `v`, unless `k`
      already sat in an overflow record of its chain; then `get(k)` still returns the
      older value, which `put` shadowed instead of replacing. */
  lemma PutThenGet(g: Geometry, s: State, k: i64, v: i64)
    requires Inv(g, s) && PutSpec(g, s, k, v).Ok?
    ensures Inv(g, PutSpec(g, s, k, v).value.state)
    ensures !Shadowed(g, s, k) ==> GetSpec(g, PutSpec(g, s, k, v).value.state, k) == Ok(v)
    ensures Shadowed(g, s, k) ==>
      GetSpec(g, s, k).Ok? && GetSpec(g, PutSpec(g, s, k, v).value.state, k) == GetSpec(g, s, k)
  {
    PutPreservesInv(g, s, k, v);
    var slot := SlotIndex(g.countNode, k);
    var head := s.nodes[slot];
    if head.next != DEFAULT_VALUE && head.key != k {
      AppendedIsStep(g, s, k, v);
      SearchAfterAppend(g, s, PutSpec(g, s, k, v).value.state, ChainTail(g, s, slot), Used(g, s), k, v, slot, k);
    }
  }

  /** A `put(k, v)` leaves the lookups of keys of other slots as they were: it writes
      no record of their chains. */
  lemma PutKeepsOtherSlots(g: Geometry, s: State, k: i64, v: i64, k2: i64)
    requires Inv(g, s) && PutSpec(g, s, k, v).Ok?
    requires SlotIndex(g.countNode, k2) != SlotIndex(g.countNode, k)
    ensures Inv(g, PutSpec(g, s, k, v).value.state)
    ensures GetSpec(g, PutSpec(g, s, k, v).value.state, k2) == GetSpec(g, s, k2)
  {
    PutPreservesInv(g, s, k, v);
    var s' := PutSpec(g, s, k, v).value.state;
    var slot, slot2 := SlotIndex(g.countNode, k), SlotIndex(g.countNode, k2);
    var head := s.nodes[slot];
    var c2 := ChainFrom(g, s, slot2);
    if head.next != DEFAULT_VALUE && head.key != k {
      AppendedIsStep(g, s, k, v);
      TailOfSlot(g, s, slot);
      assert RecordOk(g, s.nodes, s.countListNode, slot2);
      ChainEnd(g, s, slot2);
      var tail := ChainTail(g, s, slot);
      forall n | 0 <= n < |c2| ensures s'.nodes[c2[n]] == s.nodes[c2[n]] {
        assert c2[n] != tail;
      }
    }
    SearchFrame(g, s, s', slot2, k2);
  }

  /** Overwriting the head of a slot leaves the lookups of the other keys of that
      slot as they were, except that none of them can have faulted. */
  lemma OverwriteKeepsSameSlotKeys(g: Geometry, s: State, k: i64, v: i64, k2: i64)
    requires Inv(g, s) && 0 < g.countNode && k2 != k
    requires SlotIndex(g.countNode, k2) == SlotIndex(g.countNode, k)
    requires s.nodes[SlotIndex(g.countNode, k)].next != DEFAULT_VALUE
    requires s.nodes[SlotIndex(g.countNode, k)].key == k
    ensures Inv(g, PutSpec(g, s, k, v).value.state)
    ensures GetSpec(g, PutSpec(g, s, k, v).value.state, k2) == GetSpec(g, s, k2)
  {
    PutPreservesInv(g, s, k, v);
    var s' := PutSpec(g, s, k, v).value.state;
    var slot := SlotIndex(g.countNode, k);
    var head := s.nodes[slot];
    if IsLink(head.next) {
      assert RecordOk(g, s.nodes, s.countListNode, slot);
      SearchFrame(g, s, s', Target(head.next), k2);
    }
  }

  /** Appending `k` to its slot's chain leaves the lookups of the other keys of that
      slot as they were, and none of them can have faulted. */
  lemma AppendKeepsSameSlotKeys(g: Geometry, s: State, k: i64, v: i64, k2: i64)
    requires Inv(g, s) && 0 < g.countNode && k2 != k
    requires SlotIndex(g.countNode, k2) == SlotIndex(g.countNode, k)
    requires s.nodes[SlotIndex(g.countNode, k)].next != DEFAULT_VALUE
    requires s.nodes[SlotIndex(g.countNode, k)].key != k
    requires s.countListNode < g.countListCells
    ensures Inv(g, PutSpec(g, s, k, v).value.state)
    ensures GetSpec(g, PutSpec(g, s, k, v).value.state, k2) == GetSpec(g, s, k2)
  {
    var slot := SlotIndex(g.countNode, k);
    var s' := PutSpec(g, s, k, v).value.state;
    AppendedIsStep(g, s, k, v);
    SearchAfterAppend(g, s, s', ChainTail(g, s, slot), Used(g, s), k, v, slot, k2);
    SearchIsFirstMatch(g, s, slot, k2);
    OccupiedChain(g, s, slot);
  }

  /** Filling an unused slot with `k` turns the fault of every other key of that slot
      into a lookup that returns 0; the zero key, which the zero-filled slot matched,
      still finds 0. */
  lemma FillKeepsSameSlotKeys(g: Geometry, s: State, k: i64, v: i64, k2: i64)
    requires Inv(g, s) && 0 < g.countNode && k2 != k
    requires SlotIndex(g.countNode, k2) == SlotIndex(g.countNode, k)
    requires s.nodes[SlotIndex(g.countNode, k)].next == DEFAULT_VALUE
    ensures Inv(g, PutSpec(g, s, k, v).value.state)
    ensures GetSpec(g, PutSpec(g, s, k, v).value.state, k2) == Ok(0)
    ensures GetSpec(g, s, k2) == if k2 == 0 then Ok(0) else Err(InvalidAddress)
  {
    PutPreservesInv(g, s, k, v);
    assert RecordOk(g, s.nodes, s.countListNode, SlotIndex(g.countNode, k));
  }

  /** A `put(k, v)` leaves the lookup of another key `k2` of the same slot as it was,
      except that a lookup which faulted on the unused slot now ends at the record
      `put` wrote there and returns 0. */
  lemma PutKeepsSameSlotKeys(g: Geometry, s: State, k: i64, v: i64, k2: i64)
    requires Inv(g, s) && PutSpec(g, s, k, v).Ok? && k2 != k
    requires SlotIndex(g.countNode, k2) == SlotIndex(g.countNode, k)
    ensures Inv(g, PutSpec(g, s, k, v).value.state)
    ensures GetSpec(g, PutSpec(g, s, k, v).value.state, k2) ==
      if GetSpec(g, s, k2) == Err(InvalidAddress) then Ok(0) else GetSpec(g, s, k2)
  {
    var head := s.nodes[SlotIndex(g.countNode, k)];
    if head.next == DEFAULT_VALUE {
      FillKeepsSameSlotKeys(g, s, k, v, k2);
    } else if head.key == k {
      OverwriteKeepsSameSlotKeys(g, s, k, v, k2);
    } else {
      AppendKeepsSameSlotKeys(g, s, k, v, k2);
    }
  }
}
