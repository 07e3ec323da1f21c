/** The checks of the library's test program, replayed on the model: each method
    builds or receives a map in a known state, performs the operations of one
    scenario and asserts what the scenario expects to observe. */
module Scenarios {
  import opened Errors
  import opened KeyWidths
  import opened IndexTable
  import opened IndexMaps
  import opened Views

  /** An index entry of a map without persistent data. */
  function Entry(sparseToDense: nat, denseToSparse: nat): IndexEntry<()>
  {
    IndexEntry(sparseToDense, denseToSparse, ())
  }

  /** `insert` when every key is live: a fresh key, self-mapped, joins the
      table. */
  method PutFresh<T, P>(m: IndexMap<T, P>, x: T) returns (key: nat)
    requires m.Valid() && |m.values| == |m.indices| < MaxSize(m.width)
    modifies m
    ensures m.Valid() && m.values == old(m.values) + [x]
    ensures key == old(|m.indices|) && m.indices == old(m.indices) + [IndexEntry(key, key, m.blank)]
  {
    var r := m.Insert(x);
    key := r.value.key;
  }

  /** `insert` when a dead key is parked at dense index `size()`: that key is
      handed out again and the table stays as it was. */
  method PutReused<T, P>(m: IndexMap<T, P>, x: T) returns (key: nat)
    requires m.Valid() && |m.values| < |m.indices|
    modifies m
    ensures m.Valid() && m.values == old(m.values) + [x]
    ensures key == old(m.indices)[old(|m.values|)].denseToSparse && m.indices == old(m.indices)
  {
    var r := m.Insert(x);
    key := r.value.key;
  }

  /** `erase(key)` on a live key, seen through the table and the values. */
  method Drop<T, P>(m: IndexMap<T, P>, k: nat)
    requires m.Valid() && k < |m.indices| && m.indices[k].sparseToDense < |m.values|
    modifies m
    ensures m.Valid() && |m.values| == old(|m.values|) - 1
    ensures m.values == old(m.values)[old(m.indices)[k].sparseToDense := old(m.values)[old(|m.values|) - 1]][..old(|m.values|) - 1]
    ensures m.indices == ErasedEntries(old(m.indices), old(|m.values|), old(m.indices)[k].sparseToDense)
  {
    ghost var e, size, i := m.indices, |m.values|, m.indices[k].sparseToDense;
    assert m.Contains(k);
    var o := m.EraseKey(k);
    SwappedIsSwapIndices(e, KeyAndIndex(e[size - 1].denseToSparse, size - 1), KeyAndIndex(e[i].denseToSparse, i), m.indices);
  }

  /** `erase(std::size_t)` at a valid index, seen through the table and the
      values. */
  method DropAt<T, P>(m: IndexMap<T, P>, i: nat)
    requires m.Valid() && i < |m.values|
    modifies m
    ensures m.Valid() && |m.values| == old(|m.values|) - 1
    ensures m.values == old(m.values)[i := old(m.values)[old(|m.values|) - 1]][..old(|m.values|) - 1]
    ensures m.indices == ErasedEntries(old(m.indices), old(|m.values|), i)
  {
    ghost var e, size := m.indices, |m.values|;
    var o := m.EraseIndex(i);
    SwappedIsSwapIndices(e, KeyAndIndex(e[size - 1].denseToSparse, size - 1), KeyAndIndex(e[i].denseToSparse, i), m.indices);
  }

  // The basic scenario: keys are handed out, reused and finally removed.

  /** Four insertions hand out keys 0 to 3 in order. */
  method InsertFour<T>(a: T, b: T, c: T, d: T) returns (m: IndexMap<T, ()>)
    ensures fresh(m) && m.Valid() && m.width == Bits32
    ensures m.indices == [Entry(0, 0), Entry(1, 1), Entry(2, 2), Entry(3, 3)] && m.values == [a, b, c, d]
  {
    m := new IndexMap(Bits32, ());
    var k := PutFresh(m, a);
    assert k == 0 && m.indices == [Entry(0, 0)] && m.values == [a];
    k := PutFresh(m, b);
    assert k == 1 && m.indices == [Entry(0, 0), Entry(1, 1)] && m.values == [a, b];
    k := PutFresh(m, c);
    assert k == 2 && m.indices == [Entry(0, 0), Entry(1, 1), Entry(2, 2)] && m.values == [a, b, c];
    k := PutFresh(m, d);
    assert k == 3;
  }

  /** After the four insertions every key is live at its own index. */
  method QueriesAfterInsertFour<T>(m: IndexMap<T, ()>, a: T, b: T, c: T, d: T)
    requires m.Valid()
    requires m.indices == [Entry(0, 0), Entry(1, 1), Entry(2, 2), Entry(3, 3)] && m.values == [a, b, c, d]
  {
    assert m.Size() == 4 && m.KeysSize() == 4;
    assert m.GetByKey(2) == Ok(c);
    assert m.GetByIndex(3) == Ok(d);
    assert m.KeyToIndex(1) == Ok(1);
    assert m.IndexToKey(3) == Ok(3);
    assert m.Contains(3) && m.ContainsRelaxed(3);
    assert !m.Contains(4) && !m.ContainsRelaxed(4);
  }

  /** Erasing key 1 moves the last value into its place and parks key 1
      past the end. */
  method EraseKeyOne<T>(m: IndexMap<T, ()>, a: T, b: T, c: T, d: T)
    requires m.Valid()
    requires m.indices == [Entry(0, 0), Entry(1, 1), Entry(2, 2), Entry(3, 3)] && m.values == [a, b, c, d]
    modifies m
    ensures m.Valid()
    ensures m.indices == [Entry(0, 0), Entry(3, 3), Entry(2, 2), Entry(1, 1)] && m.values == [a, d, c]
  {
    Drop(m, 1);
  }

  method QueriesAfterEraseKeyOne<T>(m: IndexMap<T, ()>, a: T, d: T, c: T)
    requires m.Valid()
    requires m.indices == [Entry(0, 0), Entry(3, 3), Entry(2, 2), Entry(1, 1)] && m.values == [a, d, c]
  {
    assert m.Size() == 3 && m.KeysSize() == 4;
    assert !m.Contains(1) && m.ContainsRelaxed(1);
    assert m.GetByIndex(1) == Ok(d) && m.GetByKey(3) == Ok(d);
    assert m.KeyToIndex(3) == Ok(1);
    assert m.KeyToIndex(2) == Ok(2);
    assert m.KeyToIndexRelaxed(1) == Ok(3);
    assert m.IndexToKeyRelaxed(3) == Ok(1);
  }

  /** The next insertion reuses key 1; erasing key 2 then leaves the two
      index fields out of step with each other. */
  method ReinsertThenEraseKeyTwo<T>(m: IndexMap<T, ()>, a: T, d: T, c: T, x: T)
    requires m.Valid()
    requires m.indices == [Entry(0, 0), Entry(3, 3), Entry(2, 2), Entry(1, 1)] && m.values == [a, d, c]
    modifies m
    ensures m.Valid()
    ensures m.indices == [Entry(0, 0), Entry(2, 3), Entry(3, 1), Entry(1, 2)] && m.values == [a, d, x]
  {
    var k := PutReused(m, x);
    assert k == 1 && m.values == [a, d, c, x];
    Drop(m, 2);
  }

  /** The state the header's scenarios reach after four insertions, erasing
      key 1, reusing it for `x` and erasing key 2. */
  method Desynced<T>(a: T, b: T, c: T, d: T, x: T) returns (m: IndexMap<T, ()>)
    ensures fresh(m) && m.Valid() && m.width == Bits32
    ensures m.indices == [Entry(0, 0), Entry(2, 3), Entry(3, 1), Entry(1, 2)] && m.values == [a, d, x]
  {
    m := InsertFour(a, b, c, d);
    EraseKeyOne(m, a, b, c, d);
    ReinsertThenEraseKeyTwo(m, a, d, c, x);
  }

  method QueriesAfterDesync<T>(m: IndexMap<T, ()>, a: T, d: T, x: T)
    requires m.Valid()
    requires m.indices == [Entry(0, 0), Entry(2, 3), Entry(3, 1), Entry(1, 2)] && m.values == [a, d, x]
  {
    assert m.Size() == 3 && m.KeysSize() == 4;
    assert m.Contains(1) && !m.Contains(2) && m.ContainsRelaxed(2);
    assert m.GetByKey(1) == Ok(x) && m.GetByKey(3) == Ok(d);
    assert m.KeyToIndex(3) == Ok(1) && m.KeyToIndex(1) == Ok(2);
    assert m.KeyToIndexRelaxed(2) == Ok(3);
    assert m.IndexToKey(1) == Ok(3) && m.IndexToKey(2) == Ok(1);
    assert m.IndexToKeyRelaxed(3) == Ok(2);
  }

  method EraseKeyZero<T>(m: IndexMap<T, ()>, a: T, d: T, x: T)
    requires m.Valid()
    requires m.indices == [Entry(0, 0), Entry(2, 3), Entry(3, 1), Entry(1, 2)] && m.values == [a, d, x]
    modifies m
    ensures m.Valid()
    ensures m.indices == [Entry(2, 1), Entry(0, 3), Entry(3, 0), Entry(1, 2)] && m.values == [x, d]
  {
    Drop(m, 0);
  }

  method QueriesAfterEraseKeyZero<T>(m: IndexMap<T, ()>, x: T, d: T)
    requires m.Valid()
    requires m.indices == [Entry(2, 1), Entry(0, 3), Entry(3, 0), Entry(1, 2)] && m.values == [x, d]
  {
    assert m.Size() == 2 && m.KeysSize() == 4;
    assert m.GetByIndex(0) == Ok(x) && m.GetByIndex(1) == Ok(d);
    assert m.GetByKey(1) == Ok(x) && m.GetByKey(3) == Ok(d);
    assert !m.Contains(0) && m.Contains(1) && !m.Contains(2) && m.Contains(3);
    assert m.KeyToIndex(1) == Ok(0) && m.KeyToIndex(3) == Ok(1);
    assert m.KeyToIndexRelaxed(0) == Ok(2) && m.KeyToIndexRelaxed(2) == Ok(3);
    assert m.IndexToKey(0) == Ok(1) && m.IndexToKey(1) == Ok(3);
    assert m.IndexToKeyRelaxed(2) == Ok(0) && m.IndexToKeyRelaxed(3) == Ok(2);
  }

  /** Insertions reuse the parked keys in order, and `remove_unused_key`
      refuses while the last key is live. */
  method ReuseKeyZero<T>(m: IndexMap<T, ()>, x: T, d: T, y: T)
    requires m.Valid()
    requires m.indices == [Entry(2, 1), Entry(0, 3), Entry(3, 0), Entry(1, 2)] && m.values == [x, d]
    modifies m
    ensures m.Valid()
    ensures m.indices == [Entry(2, 1), Entry(0, 3), Entry(3, 0), Entry(1, 2)] && m.values == [x, d, y]
  {
    var k := PutReused(m, y);
    assert k == 0;
    var removed := m.RemoveUnusedKey();
    assert !removed;
  }

  method EraseReusedKeyZero<T>(m: IndexMap<T, ()>, x: T, d: T, y: T)
    requires m.Valid()
    requires m.indices == [Entry(2, 1), Entry(0, 3), Entry(3, 0), Entry(1, 2)] && m.values == [x, d, y]
    modifies m
    ensures m.Valid()
    ensures m.indices == [Entry(2, 1), Entry(0, 3), Entry(3, 0), Entry(1, 2)] && m.values == [x, d]
  {
    assert m.GetByKey(0) == Ok(y);
    Drop(m, 0);
    var removed := m.RemoveUnusedKey();
    assert !removed;
  }

  method ReuseKeyThree<T>(m: IndexMap<T, ()>, x: T, d: T, y: T)
    requires m.Valid()
    requires m.indices == [Entry(2, 1), Entry(0, 3), Entry(3, 0), Entry(1, 2)] && m.values == [x, d]
    modifies m
    ensures m.Valid()
    ensures m.indices == [Entry(2, 1), Entry(0, 3), Entry(3, 0), Entry(1, 2)] && m.values == [x]
  {
    Drop(m, 3);
    assert m.values == [x];
    var k := PutReused(m, y);
    assert k == 3;
    Drop(m, 3);
  }

  /** `remove_unused_key` drops the dead keys from the end of the key space. */
  method RemoveTwoUnusedKeys<T>(m: IndexMap<T, ()>, x: T)
    requires m.Valid()
    requires m.indices == [Entry(2, 1), Entry(0, 3), Entry(3, 0), Entry(1, 2)] && m.values == [x]
    modifies m
    ensures m.Valid()
    ensures m.indices == [Entry(1, 1), Entry(0, 0)] && m.values == [x]
  {
    var removed := m.RemoveUnusedKey();
    assert removed && m.indices == [Entry(2, 1), Entry(0, 2), Entry(1, 0)];
    assert m.Size() == 1 && m.KeysSize() == 3;
    assert m.KeyToIndex(1) == Ok(0) && m.KeyToIndexRelaxed(2) == Ok(1) && m.KeyToIndexRelaxed(0) == Ok(2);
    assert m.IndexToKey(0) == Ok(1) && m.IndexToKeyRelaxed(1) == Ok(2) && m.IndexToKeyRelaxed(2) == Ok(0);
    removed := m.RemoveUnusedKey();
    assert removed;
  }

  /** Once key 1 is erased the last key is dead and can go. */
  method ReuseKeyZeroAgain<T>(m: IndexMap<T, ()>, x: T, y: T)
    requires m.Valid()
    requires m.indices == [Entry(1, 1), Entry(0, 0)] && m.values == [x]
    modifies m
    ensures m.Valid() && m.indices == [Entry(0, 0), Entry(1, 1)] && m.values == [y]
  {
    assert m.KeyToIndex(1) == Ok(0) && m.KeyToIndexRelaxed(0) == Ok(1);
    assert m.IndexToKey(0) == Ok(1) && m.IndexToKeyRelaxed(1) == Ok(0);
    var removed := m.RemoveUnusedKey();
    assert !removed;
    var k := PutReused(m, y);
    assert k == 0;
    removed := m.RemoveUnusedKey();
    assert !removed;
    Drop(m, 1);
  }

  /** The key space shrinks to nothing as the last keys die. */
  method ShrinkToNothing<T>(m: IndexMap<T, ()>, y: T)
    requires m.Valid()
    requires m.indices == [Entry(0, 0), Entry(1, 1)] && m.values == [y]
    modifies m
    ensures m.Valid() && m.indices == [] && m.values == []
  {
    var removed := m.RemoveUnusedKey();
    assert removed && m.indices == [Entry(0, 0)];
    assert m.Size() == 1 && m.KeysSize() == 1;
    assert m.KeyToIndex(0) == Ok(0) && m.IndexToKey(0) == Ok(0);
    removed := m.RemoveUnusedKey();
    assert !removed;
    Drop(m, 0);
    assert m.Size() == 0 && m.KeysSize() == 1;
    removed := m.RemoveUnusedKey();
    assert removed;
    removed := m.RemoveUnusedKey();
    assert !removed;
  }

  /** The whole basic scenario, step after step. */
  method Basic()
  {
    var m := InsertFour(10, 20, 30, 40);
    QueriesAfterInsertFour(m, 10, 20, 30, 40);
    EraseKeyOne(m, 10, 20, 30, 40);
    QueriesAfterEraseKeyOne(m, 10, 40, 30);
    ReinsertThenEraseKeyTwo(m, 10, 40, 30, 200);
    QueriesAfterDesync(m, 10, 40, 200);
    EraseKeyZero(m, 10, 40, 200);
    QueriesAfterEraseKeyZero(m, 200, 40);
    ReuseKeyZero(m, 200, 40, 42);
    EraseReusedKeyZero(m, 200, 40, 42);
    ReuseKeyThree(m, 200, 40, 42);
    RemoveTwoUnusedKeys(m, 200);
    ReuseKeyZeroAgain(m, 200, 1000);
    ShrinkToNothing(m, 1000);
  }

  /** The same steps on a map whose values carry nothing (`T = void`): the
      keys and indices come out exactly as in the basic scenario. */
  method VoidValues()
  {
    var m := InsertFour((), (), (), ());
    QueriesAfterInsertFour(m, (), (), (), ());
    EraseKeyOne(m, (), (), (), ());
    QueriesAfterEraseKeyOne(m, (), (), ());
    ReinsertThenEraseKeyTwo(m, (), (), (), ());
    QueriesAfterDesync(m, (), (), ());
    EraseKeyZero(m, (), (), ());
    QueriesAfterEraseKeyZero(m, (), ());
    ReuseKeyZero(m, (), (), ());
    EraseReusedKeyZero(m, (), (), ());
    ReuseKeyThree(m, (), (), ());
    RemoveTwoUnusedKeys(m, ());
    ReuseKeyZeroAgain(m, (), ());
    ShrinkToNothing(m, ());
  }

  // Failing lookups and erasures report the error and change nothing.

  /** The state `Desynced(10, 20, 30, 40, 200)` builds. */
  ghost predicate AtDesynced(m: IndexMap<int, ()>)
    reads m
  {
    m.Valid() && m.indices == [Entry(0, 0), Entry(2, 3), Entry(3, 1), Entry(1, 2)] && m.values == [10, 40, 200]
  }

  method LiveKeyQueries(m: IndexMap<int, ()>)
    requires AtDesynced(m)
  {
    assert m.KeyToIndex(0) == Ok(0) && m.KeyToIndex(1) == Ok(2) && m.KeyToIndex(3) == Ok(1);
  }

  method DeadKeyQueries(m: IndexMap<int, ()>)
    requires AtDesynced(m)
  {
    assert m.KeyToIndex(2) == Err(InvalidKey) && m.KeyToIndex(4) == Err(InvalidKey);
    assert m.KeyToIndex(0xFFFF_FFFF) == Err(InvalidKey);
  }

  method RelaxedKeyQueries(m: IndexMap<int, ()>)
    requires AtDesynced(m)
  {
    assert m.KeyToIndexRelaxed(0) == Ok(0) && m.KeyToIndexRelaxed(1) == Ok(2);
    assert m.KeyToIndexRelaxed(2) == Ok(3) && m.KeyToIndexRelaxed(3) == Ok(1);
  }

  method BadRelaxedKeyQueries(m: IndexMap<int, ()>)
    requires AtDesynced(m)
  {
    assert m.KeyToIndexRelaxed(4) == Err(InvalidKey) && m.KeyToIndexRelaxed(0xFFFF_FFFF) == Err(InvalidKey);
  }

  method ValidIndexQueries(m: IndexMap<int, ()>)
    requires AtDesynced(m)
  {
    assert m.IndexToKey(0) == Ok(0) && m.IndexToKey(1) == Ok(3) && m.IndexToKey(2) == Ok(1);
  }

  method InvalidIndexQueries(m: IndexMap<int, ()>)
    requires AtDesynced(m)
  {
    assert m.IndexToKey(3) == Err(InvalidIndex) && m.IndexToKey(4) == Err(InvalidIndex);
    assert m.IndexToKey(0xFFFF_FFFF_FFFF_FFFF) == Err(InvalidIndex);
  }

  method RelaxedIndexQueries(m: IndexMap<int, ()>)
    requires AtDesynced(m)
  {
    assert m.IndexToKeyRelaxed(0) == Ok(0) && m.IndexToKeyRelaxed(1) == Ok(3);
    assert m.IndexToKeyRelaxed(2) == Ok(1) && m.IndexToKeyRelaxed(3) == Ok(2);
  }

  method BadRelaxedIndexQueries(m: IndexMap<int, ()>)
    requires AtDesynced(m)
  {
    assert m.IndexToKeyRelaxed(4) == Err(InvalidIndex);
    assert m.IndexToKeyRelaxed(0xFFFF_FFFF_FFFF_FFFF) == Err(InvalidIndex);
  }

  /** The texts the header's exceptions carry. */
  method ErrorTexts()
  {
    assert Message(InvalidKey) == "Invalid index map key.";
    assert Message(InvalidIndex) == "Invalid index map index.";
  }

  method FailingIndexErasures(m: IndexMap<int, ()>)
    requires m.Valid()
    requires m.indices == [Entry(0, 0), Entry(2, 3), Entry(3, 1), Entry(1, 2)] && m.values == [10, 40, 200]
    modifies m
    ensures m.indices == old(m.indices) && m.values == old(m.values)
  {
    var o := m.EraseIndex(3);
    assert o == Fail(InvalidIndex);
    o := m.EraseIndex(4);
    assert o == Fail(InvalidIndex);
    o := m.EraseIndex(0xFFFF_FFFF_FFFF_FFFF);
    assert o == Fail(InvalidIndex);
  }

  method FailingKeyErasures(m: IndexMap<int, ()>)
    requires m.Valid()
    requires m.indices == [Entry(0, 0), Entry(2, 3), Entry(3, 1), Entry(1, 2)] && m.values == [10, 40, 200]
    modifies m
    ensures m.indices == old(m.indices) && m.values == old(m.values)
  {
    var o := m.EraseKey(2);
    assert o == Fail(InvalidKey);
    o := m.EraseKey(0xFFFF_FFFF);
    assert o == Fail(InvalidKey);
    o := m.EraseKey(4);
    assert o == Fail(InvalidKey);
  }

  method Exceptions()
  {
    var m := Desynced(10, 20, 30, 40, 200);
    LiveKeyQueries(m);
    DeadKeyQueries(m);
    RelaxedKeyQueries(m);
    BadRelaxedKeyQueries(m);
    ValidIndexQueries(m);
    InvalidIndexQueries(m);
    RelaxedIndexQueries(m);
    BadRelaxedIndexQueries(m);
    FailingIndexErasures(m);
    FailingKeyErasures(m);
  }

  // Persistent data stays with its key while the values move.

  /** `insert` of a value under a fresh key, then a write of `d` through the
      persistent-data reference the insertion hands back. */
  method PutFreshWithData<T>(m: IndexMap<T, nat>, x: T, d: nat) returns (key: nat)
    requires m.Valid() && |m.values| == |m.indices| < MaxSize(m.width)
    modifies m
    ensures m.Valid() && m.values == old(m.values) + [x]
    ensures key == old(|m.indices|) && m.indices == old(m.indices) + [IndexEntry(key, key, d)]
  {
    var r := m.Insert(x);
    key := r.value.key;
    var o := m.SetPersistentData(r.value.dataSlot, d);
  }

  method InsertFourWithData() returns (m: IndexMap<int, nat>)
    ensures fresh(m) && m.Valid()
    ensures m.indices == [IndexEntry(0, 0, 100), IndexEntry(1, 1, 200), IndexEntry(2, 2, 300), IndexEntry(3, 3, 400)]
    ensures m.values == [10, 20, 30, 40]
  {
    m := new IndexMap(Bits32, 0);
    var k := PutFreshWithData(m, 10, 100);
    assert k == 0 && m.indices == [IndexEntry(0, 0, 100)] && m.values == [10];
    k := PutFreshWithData(m, 20, 200);
    assert k == 1 && m.indices == [IndexEntry(0, 0, 100), IndexEntry(1, 1, 200)] && m.values == [10, 20];
    k := PutFreshWithData(m, 30, 300);
    assert k == 2 && m.values == [10, 20, 30];
    assert m.indices == [IndexEntry(0, 0, 100), IndexEntry(1, 1, 200), IndexEntry(2, 2, 300)];
    k := PutFreshWithData(m, 40, 400);
    assert k == 3;
  }

  method EraseKeyOneWithData(m: IndexMap<int, nat>)
    requires m.Valid()
    requires m.indices == [IndexEntry(0, 0, 100), IndexEntry(1, 1, 200), IndexEntry(2, 2, 300), IndexEntry(3, 3, 400)]
    requires m.values == [10, 20, 30, 40]
    modifies m
    ensures m.Valid()
    ensures m.indices == [IndexEntry(0, 0, 100), IndexEntry(3, 3, 200), IndexEntry(2, 2, 300), IndexEntry(1, 1, 400)]
    ensures m.values == [10, 40, 30]
  {
    Drop(m, 1);
  }

  /** The insertion that reuses key 1 hands back entry 3 as its
      persistent-data slot: the entry of key 3, which is live. */
  method ReuseHandsBackForeignData(m: IndexMap<int, nat>)
    requires m.Valid()
    requires m.indices == [IndexEntry(0, 0, 100), IndexEntry(3, 3, 200), IndexEntry(2, 2, 300), IndexEntry(1, 1, 400)]
    requires m.values == [10, 40, 30]
    modifies m
  {
    var r := m.Insert(21);
    assert r.Ok? && r.value.key == 1 && r.value.dataSlot == 3;
    assert m.indices[3].sparseToDense == 1 && m.Contains(3);
  }

  method ReinsertThenEraseKeyTwoWithData(m: IndexMap<int, nat>)
    requires m.Valid()
    requires m.indices == [IndexEntry(0, 0, 100), IndexEntry(3, 3, 200), IndexEntry(2, 2, 300), IndexEntry(1, 1, 400)]
    requires m.values == [10, 40, 30]
    modifies m
    ensures m.Valid()
    ensures m.indices == [IndexEntry(0, 0, 100), IndexEntry(2, 3, 200), IndexEntry(3, 1, 300), IndexEntry(1, 2, 400)]
    ensures m.values == [10, 40, 21]
  {
    var k := PutReused(m, 21);
    assert k == 1;
    Drop(m, 2);
  }

  method DataQueriesAfterDesync(m: IndexMap<int, nat>)
    requires m.Valid()
    requires m.indices == [IndexEntry(0, 0, 100), IndexEntry(2, 3, 200), IndexEntry(3, 1, 300), IndexEntry(1, 2, 400)]
    requires m.values == [10, 40, 21]
  {
    assert m.GetPersistentData(0) == Ok(100) && m.GetPersistentData(1) == Ok(200);
    assert m.GetPersistentData(2) == Ok(300) && m.GetPersistentData(3) == Ok(400);
    assert m.GetPersistentDataAt(0) == Ok(100) && m.GetPersistentDataAt(1) == Ok(400);
    assert m.GetPersistentDataAt(2) == Ok(200);
    assert m.GetByIndex(0) == Ok(10) && m.GetByIndex(1) == Ok(40) && m.GetByIndex(2) == Ok(21);
  }

  method EraseByIndexWithData(m: IndexMap<int, nat>)
    requires m.Valid()
    requires m.indices == [IndexEntry(0, 0, 100), IndexEntry(2, 3, 200), IndexEntry(3, 1, 300), IndexEntry(1, 2, 400)]
    requires m.values == [10, 40, 21]
    modifies m
    ensures m.Valid()
    ensures m.indices == [IndexEntry(0, 0, 100), IndexEntry(2, 2, 200), IndexEntry(1, 1, 300), IndexEntry(3, 3, 400)]
    ensures m.values == [10, 3000, 21]
  {
    var k := PutReused(m, 3000);
    assert k == 2;
    DropAt(m, 1);
  }

  method DataQueriesAfterEraseByIndex(m: IndexMap<int, nat>)
    requires m.Valid()
    requires m.indices == [IndexEntry(0, 0, 100), IndexEntry(2, 2, 200), IndexEntry(1, 1, 300), IndexEntry(3, 3, 400)]
    requires m.values == [10, 3000, 21]
  {
    assert m.GetPersistentData(0) == Ok(100) && m.GetPersistentData(1) == Ok(200);
    assert m.GetPersistentData(2) == Ok(300) && m.GetPersistentData(3) == Ok(400);
    assert m.GetPersistentDataAt(0) == Ok(100) && m.GetPersistentDataAt(1) == Ok(300);
    assert m.GetPersistentDataAt(2) == Ok(200);
  }

  method PersistentData()
  {
    var m := InsertFourWithData();
    EraseKeyOneWithData(m);
    ReinsertThenEraseKeyTwoWithData(m);
    DataQueriesAfterDesync(m);
    EraseByIndexWithData(m);
    DataQueriesAfterEraseByIndex(m);
    var m2 := InsertFourWithData();
    EraseKeyOneWithData(m2);
    ReuseHandsBackForeignData(m2);
  }

  // Swapping and moving elements through the key-value view.

  method AddThirtyOne(m: IndexMap<seq<int>, ()>)
    requires m.Valid()
    requires m.indices == [Entry(0, 0), Entry(2, 3), Entry(3, 1), Entry(1, 2)] && m.values == [[10], [40], [21]]
    modifies m
    ensures m.Valid()
    ensures m.indices == [Entry(0, 0), Entry(2, 3), Entry(3, 1), Entry(1, 2)] && m.values == [[10], [40], [21], [31]]
  {
    var k := PutReused(m, [31]);
    assert k == 2;
  }

  method HoldsBeforeSwapLow(m: IndexMap<seq<int>, ()>)
    requires m.Valid()
    requires m.indices == [Entry(0, 0), Entry(2, 3), Entry(3, 1), Entry(1, 2)] && m.values == [[10], [40], [21], [31]]
  {
    assert m.GetByKey(0) == Ok([10]) && m.GetByKey(1) == Ok([21]);
  }

  method HoldsBeforeSwapHigh(m: IndexMap<seq<int>, ()>)
    requires m.Valid()
    requires m.indices == [Entry(0, 0), Entry(2, 3), Entry(3, 1), Entry(1, 2)] && m.values == [[10], [40], [21], [31]]
  {
    assert m.GetByKey(2) == Ok([31]) && m.GetByKey(3) == Ok([40]);
  }

  /** `iter_swap` of positions 0 and 2: the values trade places and every key
      follows its value. */
  method SwapFirstAndThird(m: IndexMap<seq<int>, ()>)
    requires m.Valid()
    requires m.indices == [Entry(0, 0), Entry(2, 3), Entry(3, 1), Entry(1, 2)] && m.values == [[10], [40], [21], [31]]
    modifies m
    ensures m.Valid()
    ensures m.indices == [Entry(2, 1), Entry(0, 3), Entry(3, 0), Entry(1, 2)] && m.values == [[21], [40], [10], [31]]
  {
    ghost var e := m.indices;
    m.SwapElems(0, 2);
    SwappedIsSwapIndices(e, KeyAndIndex(0, 0), KeyAndIndex(1, 2), m.indices);
  }

  /** After the swap each key still holds its own value. */
  method HoldsAfterSwapLow(m: IndexMap<seq<int>, ()>)
    requires m.Valid()
    requires m.indices == [Entry(2, 1), Entry(0, 3), Entry(3, 0), Entry(1, 2)] && m.values == [[21], [40], [10], [31]]
  {
    assert m.GetByKey(0) == Ok([10]) && m.GetByKey(1) == Ok([21]);
  }

  method HoldsAfterSwapHigh(m: IndexMap<seq<int>, ()>)
    requires m.Valid()
    requires m.indices == [Entry(2, 1), Entry(0, 3), Entry(3, 0), Entry(1, 2)] && m.values == [[21], [40], [10], [31]]
  {
    assert m.GetByKey(2) == Ok([31]) && m.GetByKey(3) == Ok([40]);
  }

  /** Assigning `iter_move` of position 2 to position 0: the key at 2 moves
      to 0 with its value, and the key that was at 0 is left at 2 with the
      moved-from (empty) value. */
  method MoveThirdToFirst(m: IndexMap<seq<int>, ()>)
    requires m.Valid()
    requires m.indices == [Entry(2, 1), Entry(0, 3), Entry(3, 0), Entry(1, 2)] && m.values == [[21], [40], [10], [31]]
    modifies m
    ensures m.Valid()
    ensures m.indices == [Entry(0, 0), Entry(2, 3), Entry(3, 1), Entry(1, 2)] && m.values == [[10], [40], [], [31]]
  {
    ghost var e := m.indices;
    m.MoveElem(2, 0, []);
    SwappedIsSwapIndices(e, KeyAndIndex(0, 2), KeyAndIndex(1, 0), m.indices);
  }

  /** The key left at position 2 holds the moved-from value. */
  method HoldsAfterMoveLow(m: IndexMap<seq<int>, ()>)
    requires m.Valid()
    requires m.indices == [Entry(0, 0), Entry(2, 3), Entry(3, 1), Entry(1, 2)] && m.values == [[10], [40], [], [31]]
  {
    assert m.indices[1].sparseToDense == 2 && m.values[2] == [];
    assert m.GetByKey(1) == Ok([]);
  }

  method HoldsAfterMoveHigh(m: IndexMap<seq<int>, ()>)
    requires m.Valid()
    requires m.indices == [Entry(0, 0), Entry(2, 3), Entry(3, 1), Entry(1, 2)] && m.values == [[10], [40], [], [31]]
  {
    assert m.GetByKey(0) == Ok([10]);
    assert m.GetByKey(2) == Ok([31]) && m.GetByKey(3) == Ok([40]);
  }

  method SwapAndMove()
  {
    var m := Desynced<seq<int>>([10], [20], [30], [40], [21]);
    AddThirtyOne(m);
    HoldsBeforeSwapLow(m);
    HoldsBeforeSwapHigh(m);
    SwapFirstAndThird(m);
    HoldsAfterSwapLow(m);
    HoldsAfterSwapHigh(m);
    MoveThirdToFirst(m);
    HoldsAfterMoveLow(m);
    HoldsAfterMoveHigh(m);
  }

  // The non-member `erase` and `erase_if`.

  method InsertThree(a: int, b: int, c: int) returns (m: IndexMap<int, ()>)
    ensures fresh(m) && m.Valid() && m.values == [a, b, c]
    ensures m.indices == [Entry(0, 0), Entry(1, 1), Entry(2, 2)]
  {
    m := new IndexMap(Bits32, ());
    var k := PutFresh(m, a);
    assert m.indices == [Entry(0, 0)];
    k := PutFresh(m, b);
    assert m.indices == [Entry(0, 0), Entry(1, 1)];
    k := PutFresh(m, c);
  }

  /** `erase(m.values(), 42)` when every value is 42 empties the map. */
  method EraseEveryValue()
  {
    var m := InsertThree(42, 42, 42);
    var count := EraseValue(m, 42);
    assert multiset(m.values) == multiset{};
    assert count == 3 && m.Empty();
  }

  /** `erase_if(m.values(), x > 40)` when every value passes empties the map. */
  method EraseIfEveryValue()
  {
    var m := InsertThree(42, 43, 44);
    var count := EraseIfValues(m, x => x > 40);
    assert Keep([42, 43, 44], x => x > 40) == [];
    assert count == 3 && m.Empty();
  }

  /** The state with keys 0, 3, 1, 2 at dense indices 0 to 3. */
  method DesyncedFull() returns (m: IndexMap<int, ()>)
    ensures fresh(m) && m.Valid()
    ensures m.indices == [Entry(0, 0), Entry(2, 3), Entry(3, 1), Entry(1, 2)] && m.values == [10, 40, 21, 31]
  {
    m := Desynced(10, 20, 30, 40, 21);
    var k := PutReused(m, 31);
  }

  /** The key map of the state `DesyncedFull` builds. */
  lemma DesyncedFullKeyMap()
    ensures KeyMap([Entry(0, 0), Entry(2, 3), Entry(3, 1), Entry(1, 2)], [10, 40, 21, 31])
         == map[0 := 10, 1 := 21, 2 := 31, 3 := 40]
  {
    var e: seq<IndexEntry<()>>, v := [Entry(0, 0), Entry(2, 3), Entry(3, 1), Entry(1, 2)], [10, 40, 21, 31];
    var l := map[0 := 10, 1 := 21, 2 := 31, 3 := 40];
    forall k: nat
      ensures Resolve(e, v, k) == Get(l, k)
    {
    }
    KeyMapByResolve(e, v, l);
  }

  /** Dropping the entries a predicate accepts: with the one holding 21
      accepted and the others rejected, key 1 goes and the rest stay. */
  lemma KeepAllButTwentyOne(f: int -> bool)
    requires f(21) && !f(10) && !f(31) && !f(40)
    ensures KeepWhere(map[0 := 10, 1 := 21, 2 := 31, 3 := 40], f) == map[0 := 10, 2 := 31, 3 := 40]
  {
    var r := KeepWhere(map[0 := 10, 1 := 21, 2 := 31, 3 := 40], f);
    assert r.Keys == {0, 2, 3};
  }

  lemma KeepTwentyOne(f: int -> bool)
    requires f(21) && !f(10) && !f(31) && !f(40)
    ensures Keep([10, 40, 21, 31], f) == [10, 40, 31]
  {
    assert [10, 40, 21, 31][1..][1..][1..] == [31];
  }

  lemma WithoutTwentyOne()
    ensures WithoutValue(map[0 := 10, 1 := 21, 2 := 31, 3 := 40], 21) == map[0 := 10, 2 := 31, 3 := 40]
  {
    var r := WithoutValue(map[0 := 10, 1 := 21, 2 := 31, 3 := 40], 21);
    assert r.Keys == {0, 2, 3};
  }

  /** `erase(m.values(), 21)`: one element goes, the other keys keep their
      values. */
  method EraseOneValue() returns (m: IndexMap<int, ()>)
    ensures m.Valid() && |m.values| == 3 && m.Lookup() == map[0 := 10, 2 := 31, 3 := 40]
  {
    m := DesyncedFull();
    DesyncedFullKeyMap();
    var count := EraseValue(m, 21);
    WithoutTwentyOne();
    assert count == 1;
  }

  /** `erase_if(m.values(), x == 21)` does the same. */
  method EraseOneByPredicate() returns (m: IndexMap<int, ()>)
    ensures m.Valid() && |m.values| == 3 && m.Lookup() == map[0 := 10, 2 := 31, 3 := 40]
  {
    m := DesyncedFull();
    DesyncedFullKeyMap();
    var f := (x: int) => x == 21;
    KeepAllButTwentyOne(f);
    KeepTwentyOne(f);
    var count := EraseIfValues(m, f);
    assert |m.values| == |multiset(m.values)| == 3;
    assert count == 1;
  }

  method LookupsAfterEraseOne(m: IndexMap<int, ()>)
    requires m.Valid() && |m.values| == 3 && m.Lookup() == map[0 := 10, 2 := 31, 3 := 40]
  {
    assert m.Size() == 3;
    assert 0 in m.Lookup() && m.Lookup()[0] == 10;
    assert m.GetByKey(0) == Ok(10);
    assert !m.Contains(1);
  }

  method MoreLookupsAfterEraseOne(m: IndexMap<int, ()>)
    requires m.Valid() && |m.values| == 3 && m.Lookup() == map[0 := 10, 2 := 31, 3 := 40]
  {
    assert 2 in m.Lookup() && m.Lookup()[2] == 31;
    assert m.GetByKey(2) == Ok(31);
    assert 3 in m.Lookup() && m.Lookup()[3] == 40;
    assert m.GetByKey(3) == Ok(40);
  }

  /** `erase_if(m.keys_and_values(), x.value() == 21)`: a predicate on the
      whole element that looks only at the value erases the same element. */
  method EraseOneElement() returns (m: IndexMap<int, ()>)
    ensures m.Valid() && |m.values| == 3 && m.Lookup() == map[0 := 10, 2 := 31, 3 := 40]
  {
    m := DesyncedFull();
    ghost var e0, v0 := m.indices, m.values;
    DesyncedFullKeyMap();
    var f := (x: int) => x == 21;
    var g := (x: Element<int, ()>) => x.value == 21;
    KeepAllButTwentyOne(f);
    KeepTwentyOne(f);
    KeptByValue(Elements(e0, v0), v0, f, g, 0);
    SurvivorsByValue(e0, v0, f, g);
    assert v0[0..] == v0;
    var count := EraseIf(m, g);
    assert |m.values| == |multiset(m.values)| == 3;
    assert count == 1;
  }

  /** `erase_if(m.keys_and_values(), x.value() > 40)` when every value
      passes empties the map. */
  method EraseEveryElement()
  {
    var m := InsertThree(42, 43, 44);
    ghost var e0, v0 := m.indices, m.values;
    var f := (x: int) => x > 40;
    var g := (x: Element<int, ()>) => x.value > 40;
    assert Keep([42, 43, 44], f) == [];
    KeptByValue(Elements(e0, v0), v0, f, g, 0);
    assert v0[0..] == v0;
    var count := EraseIf(m, g);
    assert |m.values| == |multiset(m.values)| == 0;
    assert count == 3 && m.Empty();
  }

  method NonMemberErase()
  {
    EraseEveryValue();
    EraseIfEveryValue();
    var m := EraseOneValue();
    LookupsAfterEraseOne(m);
    MoreLookupsAfterEraseOne(m);
    m := EraseOneByPredicate();
    LookupsAfterEraseOne(m);
    m := EraseOneElement();
    LookupsAfterEraseOne(m);
    EraseEveryElement();
    MoreLookupsAfterEraseOne(m);
  }

  // Clearing.

  method ClearTwo(hard: bool)
  {
    var m := new IndexMap<int, ()>(Bits32, ());
    var k := PutFresh(m, 10);
    k := PutFresh(m, 20);
    assert m.indices == [Entry(0, 0), Entry(1, 1)];
    if hard {
      m.Clear();
      assert m.Size() == 0 && m.KeysSize() == 0;
    } else {
      m.SoftClear();
      assert m.Size() == 0 && m.KeysSize() == 2;
    }
  }
}
