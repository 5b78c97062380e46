/** A 192-byte block worked through `put` and `get`: six primary slots and two
    overflow records. */
module Scenarios {
  import opened Int64
  import opened Layout
  import opened Chains
  import opened Maps

  /** The block after `put(0, 100)` and `put(6, 200)`: key 6 collides with key 0 in
      slot 0 and takes the first overflow record, linked from slot 0. */
  method TwoPuts() returns (m: LongLongMap)
    ensures fresh(m) && fresh(m.mem) && m.Valid() && m.Geo() == Geometry(192, 6, 2)
    ensures m.Snapshot() == State([Node(0, 100, 144), EMPTY, EMPTY, EMPTY, EMPTY, EMPTY,
                                   Node(6, 200, -1), EMPTY], 168, 1)
  {
    m := new LongLongMap(192);
    ghost var g := Geometry(192, 6, 2);
    assert m.Geo() == g;
    ghost var e := EMPTY;
    assert m.Snapshot().nodes == [e, e, e, e, e, e, e, e];
    var r := m.Put(0, 100);
    assert r == Ok(0);
    ghost var s1 := m.Snapshot();
    assert s1 == State([Node(0, 100, -1), e, e, e, e, e, e, e], 144, 0);
    assert ChainFrom(g, s1, 0) == [0];
    r := m.Put(6, 200);
    assert r == Ok(0);
  }

  /** A second `put(6, 300)` compares only with slot 0's own key 0, so it appends a
      duplicate record for 6 instead of replacing the first. */
  method ThreePuts() returns (m: LongLongMap)
    ensures fresh(m) && fresh(m.mem) && m.Valid() && m.Geo() == Geometry(192, 6, 2)
    ensures m.Snapshot() == State([Node(0, 100, 144), EMPTY, EMPTY, EMPTY, EMPTY, EMPTY,
                                   Node(6, 200, 168), Node(6, 300, -1)], 192, 2)
  {
    m := TwoPuts();
    ghost var g := Geometry(192, 6, 2);
    ghost var s2 := m.Snapshot();
    assert ChainFrom(g, s2, 6) == [6];
    assert ChainFrom(g, s2, 0) == [0, 6];
    var r := m.Put(6, 300);
    assert r == Ok(0);
  }

  /** On that block `get(6)` returns the first value stored for 6, a further collision
      finds the overflow area used up, and a lookup of key 1, whose slot was never
      written, follows the zero fill and faults. */
  method SmallBlockScenario() returns (shadowed: Result<i64>, exhausted: Result<i64>, unused: Result<i64>)
    ensures shadowed == Ok(200)
    ensures exhausted == Err(OutOfElements)
    ensures unused == Err(InvalidAddress)
  {
    var m := ThreePuts();
    assert SearchFrom(m.Geo(), m.Snapshot(), 6, 6) == Ok(200);
    shadowed := m.Get(6);
    exhausted := m.Put(12, 400);
    unused := m.Get(1);
  }
}
