/** `em::IndexMap`: values stored densely, addressed by stable keys that are
    translated through a table of index entries. The class keeps the two
    containers the header keeps, `indices` and the value storage, and updates
    them in place as the header's members do. The key type's width is the
    constant `width`; the value-initialised persistent data (`PersistentData{}`)
    is the constant `blank`. A map with no value type (`T = void`) is an
    `IndexMap<(), P>`. */
module IndexMaps {
  import opened Errors
  import opened KeyWidths
  import opened IndexTable

  /** What `insert`/`emplace` hand back besides the value: the new element's
      key, and the key whose persistent-data entry the returned reference
      designates. */
  datatype InsertResult = InsertResult(key: nat, dataSlot: nat)

  class IndexMap<T, P> {
    const width: KeyWidth
    const blank: P
    var indices: seq<IndexEntry<P>>
    var values: seq<T>

    /** The representation invariant: the index fields are inverse
        permutations of the key space, and there are no more values than
        keys, and no more keys than `max_size()`. */
    ghost predicate Valid()
      reads this
    {
      |values| <= |indices| <= MaxSize(width) && Inverse(indices)
    }

    /** The map as a caller sees it: each live key and its value. */
    ghost function Lookup(): map<nat, T>
      reads this
    {
      KeyMap(indices, values)
    }

    constructor (width: KeyWidth, blank: P)
      ensures Valid() && this.width == width && this.blank == blank
      ensures indices == [] && values == [] && Lookup() == map[]
    {
      this.width := width;
      this.blank := blank;
      indices := [];
      values := [];
    }

    function Size(): nat
      reads this
    {
      |values|
    }

    function KeysSize(): nat
      reads this
    {
      |indices|
    }

    /** `size()` counts the live keys. */
    lemma SizeCountsLiveKeys()
      requires Valid()
      ensures Size() == |Lookup()|
    {
      KeyMapSize(indices, values);
    }

    /** Every live key is below `keys_size()`, which never exceeds
        `max_size()`. */
    lemma KeysSizeBounds()
      requires Valid()
      ensures |Lookup()| <= KeysSize() <= MaxSize(width)
      ensures forall k :: k in Lookup() ==> k < KeysSize()
    {
      KeyMapSize(indices, values);
    }

    /** `empty()`: true exactly when no key is live. */
    function Empty(): (b: bool)
      reads this
      requires Valid()
      ensures b <==> Lookup() == map[]
    {
      if |values| == 0 then true
      else
        KeyAtIndexIsLive(indices, values, 0);
        false
    }

    function ContainsRelaxed(k: nat): bool
      reads this
    {
      k < |indices|
    }

    function ValidIndex(i: nat): bool
      reads this
    {
      i < |values|
    }

    function ValidIndexRelaxed(i: nat): bool
      reads this
    {
      i < |indices|
    }

    /** The relaxed checks accept more than the strict ones: every live key
        and every valid index. An accepted key's dense index, and an accepted
        index's key, are accepted in turn; the valid indices are exactly as
        many as the live keys. */
    lemma RelaxedChecksWiden(k: nat, i: nat)
      requires Valid()
      ensures k in Lookup() ==> ContainsRelaxed(k)
      ensures ContainsRelaxed(k) ==> ValidIndexRelaxed(indices[k].sparseToDense)
      ensures ValidIndex(i) <==> i < |Lookup()|
      ensures ValidIndex(i) ==> ValidIndexRelaxed(i)
      ensures ValidIndexRelaxed(i) ==> ContainsRelaxed(indices[i].denseToSparse)
    {
      KeyMapSize(indices, values);
    }

    /** `key_to_index_unsafe`: the dense index of a key of the table, at
        which the inverse field names the key back. */
    function KeyToIndexUnsafe(k: nat): (i: nat)
      reads this
      requires Valid() && ContainsRelaxed(k)
      ensures i < |indices| && indices[i].denseToSparse == k
    {
      indices[k].sparseToDense
    }

    /** `index_to_key_unsafe`: the key at a dense index, whose entry points
        back at that index. */
    function IndexToKeyUnsafe(i: nat): (k: nat)
      reads this
      requires Valid() && ValidIndexRelaxed(i)
      ensures k < |indices| && indices[k].sparseToDense == i
    {
      indices[i].denseToSparse
    }

    /** `contains`: a key is contained exactly when it is live. */
    function Contains(k: nat): (c: bool)
      reads this
      requires Valid()
      ensures c <==> k in Lookup()
    {
      ContainsRelaxed(k) && ValidIndex(KeyToIndexUnsafe(k))
    }

    /** `key_to_index`: fails on a key that is not live; otherwise gives the
        index holding the key's value, which maps back to the key. */
    function KeyToIndex(k: nat): (r: Result<nat>)
      reads this
      requires Valid()
      ensures r.Ok? <==> k in Lookup()
      ensures r.Err? ==> r.error == InvalidKey
      ensures r.Ok? ==> r.value < Size() && IndexToKeyUnsafe(r.value) == k && values[r.value] == Lookup()[k]
    {
      if !Contains(k) then Err(InvalidKey) else Ok(KeyToIndexUnsafe(k))
    }

    /** `key_to_index_relaxed`: accepts every key of the table, live or not;
        the index it gives is live exactly when the key is. */
    function KeyToIndexRelaxed(k: nat): (r: Result<nat>)
      reads this
      requires Valid()
      ensures r.Ok? <==> k < KeysSize()
      ensures r.Err? ==> r.error == InvalidKey
      ensures r.Ok? ==>
        r.value < KeysSize() && IndexToKeyUnsafe(r.value) == k && (r.value < Size() <==> k in Lookup())
    {
      if !ContainsRelaxed(k) then Err(InvalidKey) else Ok(KeyToIndexUnsafe(k))
    }

    /** `index_to_key`: fails on an index at or past `size()`; otherwise gives
        a live key that maps back to the index and resolves to its value. */
    function IndexToKey(i: nat): (r: Result<nat>)
      reads this
      requires Valid()
      ensures r.Ok? <==> i < Size()
      ensures r.Err? ==> r.error == InvalidIndex
      ensures r.Ok? ==> r.value in Lookup() && KeyToIndexUnsafe(r.value) == i && Lookup()[r.value] == values[i]
    {
      if !ValidIndex(i) then Err(InvalidIndex)
      else
        KeyAtIndexIsLive(indices, values, i);
        Ok(IndexToKeyUnsafe(i))
    }

    /** `index_to_key_relaxed`: accepts every index below `keys_size()`; the
        key it gives is live exactly when the index is below `size()`. */
    function IndexToKeyRelaxed(i: nat): (r: Result<nat>)
      reads this
      requires Valid()
      ensures r.Ok? <==> i < KeysSize()
      ensures r.Err? ==> r.error == InvalidIndex
      ensures r.Ok? ==>
        r.value < KeysSize() && KeyToIndexUnsafe(r.value) == i && (r.value in Lookup() <==> i < Size())
    {
      if !ValidIndexRelaxed(i) then Err(InvalidIndex) else Ok(IndexToKeyUnsafe(i))
    }

    /** `operator[](key)`: the value of a live key, an error otherwise. */
    function GetByKey(k: nat): (r: Result<T>)
      reads this
      requires Valid()
      ensures r.Ok? <==> k in Lookup()
      ensures r.Err? ==> r.error == InvalidKey
      ensures r.Ok? ==> r.value == Lookup()[k]
    {
      match KeyToIndex(k)
      case Err(e) => Err(e)
      case Ok(i) => Ok(values[i])
    }

    /** `operator[](std::size_t)`: the value at a dense index below `size()`,
        which is the value of the key sitting there. */
    function GetByIndex(i: nat): (r: Result<T>)
      reads this
      requires Valid()
      ensures r.Ok? <==> i < Size()
      ensures r.Err? ==> r.error == InvalidIndex
      ensures r.Ok? ==> IndexToKeyUnsafe(i) in Lookup() && r.value == Lookup()[IndexToKeyUnsafe(i)]
    {
      if !ValidIndex(i) then Err(InvalidIndex)
      else
        KeyAtIndexIsLive(indices, values, i);
        Ok(values[i])
    }

    /** `get_persistent_data(key)`: any key of the table, live or dead, has
        its own persistent data; keys past `keys_size()` are refused. */
    function GetPersistentData(k: nat): (r: Result<P>)
      reads this
      ensures r.Ok? <==> k < KeysSize()
      ensures r.Err? ==> r.error == InvalidKey
      ensures r.Ok? ==> r.value == indices[k].sparseData
    {
      if !ContainsRelaxed(k) then Err(InvalidKey) else Ok(indices[k].sparseData)
    }

    /** `get_persistent_data(std::size_t)`: the persistent data of the key at
        a live dense index. */
    function GetPersistentDataAt(i: nat): (r: Result<P>)
      reads this
      requires Valid()
      ensures r.Ok? <==> i < Size()
      ensures r.Err? ==> r.error == InvalidIndex
      ensures r.Ok? ==> IndexToKeyUnsafe(i) in Lookup() && r.value == indices[IndexToKeyUnsafe(i)].sparseData
    {
      match IndexToKey(i)
      case Err(e) => Err(e)
      case Ok(k) => GetPersistentData(k)
    }

    /** A `KeyValueRef` at a live dense index: its key is live and resolves to
        the value shown, and the data shown is that key's persistent data. */
    function KeyValueAt(i: nat): (r: Element<T, P>)
      reads this
      requires Valid() && i < Size()
      ensures r.index == i && r.key in Lookup() && r.value == Lookup()[r.key]
      ensures KeyToIndexUnsafe(r.key) == i && r.data == indices[r.key].sparseData
    {
      KeyAtIndexIsLive(indices, values, i);
      ElementOf(indices, values, i)
    }

    /** `KeyAndIndex(self, key)`: a key together with its dense index. */
    function KeyAndIndexOfKey(k: nat): (r: KeyAndIndex)
      reads this
      requires Valid() && k < |indices|
      ensures r.k == k && Pairs(indices, r)
    {
      KeyAndIndex(k, KeyToIndexUnsafe(k))
    }

    /** `KeyAndIndex(self, index)`: a dense index together with its key. */
    function KeyAndIndexOfIndex(i: nat): (r: KeyAndIndex)
      reads this
      requires Valid() && i < |indices|
      ensures r.i == i && Pairs(indices, r)
    {
      KeyAndIndex(IndexToKeyUnsafe(i), i)
    }

    /** `can_increase_size_or_throw`: one more value fits exactly when
        `size()` is below `max_size()`. */
    function CanIncreaseSize(): (o: Outcome)
      reads this
      ensures o.Fail? <==> Size() >= MaxSize(width)
      ensures o.Fail? ==> o.error == TooLarge
    {
      if |values| >= MaxSize(width) then Fail(TooLarge) else Pass
    }

    /** `swap_indices_only_relaxed`: exchange the dense positions of the two
        keys and the keys of the two dense positions; the table stays
        consistent and no persistent data moves. */
    method SwapIndicesOnlyRelaxed(a: KeyAndIndex, b: KeyAndIndex)
      requires Valid() && Pairs(indices, a) && Pairs(indices, b)
      modifies this
      ensures Valid() && Swapped(old(indices), a, b, indices) && values == old(values)
    {
      ghost var e := indices;
      SwapIndicesInSteps(indices, a, b);
      var t := indices[a.k].sparseToDense;
      indices := indices[a.k := indices[a.k].(sparseToDense := indices[b.k].sparseToDense)];
      indices := indices[b.k := indices[b.k].(sparseToDense := t)];
      var u := indices[a.i].denseToSparse;
      indices := indices[a.i := indices[a.i].(denseToSparse := indices[b.i].denseToSparse)];
      indices := indices[b.i := indices[b.i].(denseToSparse := u)];
      SwappedKeepsInverse(e, a, b, indices);
    }

    /** `swap_indices_only`: the same, for two live elements. */
    method SwapIndicesOnly(a: KeyAndIndex, b: KeyAndIndex)
      requires Valid() && Pairs(indices, a) && Pairs(indices, b) && a.i < Size() && b.i < Size()
      modifies this
      ensures Valid() && Swapped(old(indices), a, b, indices) && values == old(values)
    {
      SwapIndicesOnlyRelaxed(a, b);
    }

    /** `swap_elems_low`: swap the index entries and the values of two live
        elements. */
    method SwapElemsLow(a: KeyAndIndex, b: KeyAndIndex)
      requires Valid() && Pairs(indices, a) && Pairs(indices, b) && a.i < Size() && b.i < Size()
      modifies this
      ensures Valid() && Swapped(old(indices), a, b, indices)
      ensures values == old(values)[a.i := old(values)[b.i]][b.i := old(values)[a.i]]
    {
      SwapIndicesOnly(a, b);
      var x, y := values[a.i], values[b.i];
      values := values[a.i := y][b.i := x];
      assert Inverse(indices);
    }

    /** `move_elem_low`: swap the index entries of two live elements and move
        the value at `a.i` to `b.i`; `leftover` is what the move leaves at
        `a.i` (when the two are one element, a self-move leaves it there). */
    method MoveElemLow(a: KeyAndIndex, b: KeyAndIndex, leftover: T)
      requires Valid() && Pairs(indices, a) && Pairs(indices, b) && a.i < Size() && b.i < Size()
      modifies this
      ensures Valid() && Swapped(old(indices), a, b, indices)
      ensures values == old(values)[b.i := old(values)[a.i]][a.i := leftover]
    {
      SwapIndicesOnly(a, b);
      values := values[b.i := values[a.i]][a.i := leftover];
      assert Inverse(indices);
    }

    /** `add_key_for_inserted_value`, with the value already appended: reuse
        the key parked at the new value's dense position, or append a fresh
        self-mapped entry. The persistent-data slot handed back is entry
        number `size() - 1` in both branches, as the header writes it; in the
        reuse branch that is not, in general, the returned key's own entry
        (see `IndexTable.DataSlotAsWritten`). */
    method AddKeyForInsertedValue() returns (r: InsertResult)
      requires 0 < |values| <= MaxSize(width) && |values| - 1 <= |indices| <= MaxSize(width) && Inverse(indices)
      modifies this
      ensures Valid() && values == old(values)
      ensures indices == InsertedEntries(old(indices), |values| - 1, blank)
      ensures r.key == InsertedKey(old(indices), |values| - 1)
      ensures r.dataSlot == DataSlotAsWritten(old(indices), |values| - 1)
    {
      if |values| <= |indices| {
        var e := indices[|values| - 1];
        r := InsertResult(e.denseToSparse, |values| - 1);
      } else {
        var k := |indices|;
        AppendIdentityKeepsInverse(indices, k + 1, blank);
        assert IdentityEntries(k, k + 1, blank) == [IndexEntry(k, k, blank)];
        indices := indices + [IndexEntry(k, k, blank)];
        r := InsertResult(k, k);
      }
    }

    /** `insert`/`emplace`: fails when the map is full; otherwise appends `x`
        at dense index old `size()` under a key that was not live, reusing the
        key parked there when there is one, and leaves every other key as it
        was. The persistent-data slot handed back is entry number old
        `size()`, as written; it is the new key's own entry exactly when that
        key is parked at its own number (see `IndexTable.DataSlotIsKeyIff`). */
    method Insert(x: T) returns (r: Result<InsertResult>)
      requires Valid()
      modifies this
      ensures Valid()
      ensures old(|values|) >= MaxSize(width) ==>
        r == Err(TooLarge) && indices == old(indices) && values == old(values)
      ensures old(|values|) < MaxSize(width) ==>
        && r.Ok? && values == old(values) + [x]
        && indices == InsertedEntries(old(indices), old(|values|), blank)
        && r.value.key == InsertedKey(old(indices), old(|values|))
        && r.value.dataSlot == DataSlotAsWritten(old(indices), old(|values|))
      ensures r.Ok? ==>
        && r.value.key !in old(Lookup())
        && Lookup() == old(Lookup())[r.value.key := x]
        && KeyToIndexUnsafe(r.value.key) == old(|values|)
        && DataAgrees(old(indices), indices)
      ensures r.Ok? && old(|values|) < old(|indices|) ==>
        r.value.key == old(indices)[old(|values|)].denseToSparse && |indices| == old(|indices|)
      ensures r.Ok? && old(|values|) == old(|indices|) ==>
        r.value.key == old(|indices|) && |indices| == old(|indices|) + 1
    {
      var c := CanIncreaseSize();
      if c.Fail? {
        return Err(c.error);
      }
      InsertUpdatesKeyMap(indices, values, x, blank);
      values := values + [x];
      var added := AddKeyForInsertedValue();
      r := Ok(added);
    }

    /** `prepare_keys_for_insertion(n)`: nothing happens when there are
        already `n` keys; a request past `max_size()` fails; otherwise the key
        space grows to `n` with dead self-mapped entries, existing entries and
        the values untouched. */
    method PrepareKeysForInsertion(n: nat) returns (o: Outcome)
      requires Valid()
      modifies this
      ensures Valid() && values == old(values) && Lookup() == old(Lookup())
      ensures n <= old(|indices|) ==> o == Pass && indices == old(indices)
      ensures old(|indices|) < n && n > MaxSize(width) ==>
        o == Fail(WouldBeTooLarge) && indices == old(indices)
      ensures old(|indices|) < n <= MaxSize(width) ==>
        o == Pass && indices == old(indices) + IdentityEntries(old(|indices|), n, blank)
    {
      var i := |indices|;
      if i >= n {
        return Pass;
      }
      if n > MaxSize(width) {
        return Fail(WouldBeTooLarge);
      }
      ghost var before := indices;
      indices := indices + seq(n - i, _ => IndexEntry(0, 0, blank));
      while i < n
        invariant |before| <= i <= n && |indices| == n && values == old(values)
        invariant forall j :: 0 <= j < |before| ==> indices[j] == before[j]
        invariant forall j :: |before| <= j < i ==> indices[j] == IndexEntry(j, j, blank)
        invariant forall j :: i <= j < n ==> indices[j].sparseData == blank
      {
        indices := indices[i := indices[i].(sparseToDense := i, denseToSparse := i)];
        i := i + 1;
      }
      assert indices == before + IdentityEntries(|before|, n, blank);
      AppendIdentityKeepsInverse(before, n, blank);
      AppendIdentityKeepsKeyMap(before, values, n, blank);
      o := Pass;
    }

    /** The body both `erase` overloads share: move the last value over the
        erased element with `move_elem_low`, then drop the last position. */
    method MoveLastOverAndPop(i: nat)
      requires Valid() && i < Size()
      modifies this
      ensures |values| == old(|values|) - 1 && |values| <= |indices|
      ensures Erased(old(indices), old(|values|), i, indices)
      ensures values == old(values)[i := old(values)[|values|]][..|values|]
    {
      ghost var e, v := indices, values;
      ghost var moved := v[i := v[|v| - 1]][|v| - 1 := v[|v| - 1]];
      SelfMoveOfLast(v, i, moved, moved[..|v| - 1]);
      var target, last := KeyAndIndexOfIndex(i), KeyAndIndexOfIndex(|values| - 1);
      MoveElemLow(last, target, values[|values| - 1]);
      ErasedByMove(e, |v|, last, target, indices);
      assert values == moved;
      values := values[..|values| - 1];
    }

    /** `erase(key)`: fails on a key that is not live. Otherwise the last
        value moves into the erased position, the erased key becomes dead and
        is parked at the new `size()`, and every other key keeps its value. */
    method EraseKey(k: nat) returns (o: Outcome)
      requires Valid()
      modifies this
      ensures Valid() && |indices| == old(|indices|) && DataAgrees(old(indices), indices)
      ensures k !in old(Lookup()) ==> o == Fail(InvalidKey) && indices == old(indices) && values == old(values)
      ensures k in old(Lookup()) ==>
        var i := old(indices)[k].sparseToDense;
        var last := old(|values|) - 1;
        && o == Pass
        && Erased(old(indices), old(|values|), i, indices)
        && values == old(values)[i := old(values)[last]][..last]
        && indices[k].sparseToDense == |values|
        && Lookup() == old(Lookup()) - {k}
    {
      if !Contains(k) {
        return Fail(InvalidKey);
      }
      ghost var e, v := indices, values;
      var target := KeyAndIndexOfKey(k);
      MoveLastOverAndPop(target.i);
      EraseUpdatesKeyMap(e, v, target.i, indices, values);
      o := Pass;
    }

    /** `erase(std::size_t)`: fails on an index at or past `size()`. Otherwise
        the last value moves into position `i`, the key that sat at `i` becomes
        dead, and every other position keeps its key and value. */
    method EraseIndex(i: nat) returns (o: Outcome)
      requires Valid()
      modifies this
      ensures Valid() && |indices| == old(|indices|) && DataAgrees(old(indices), indices)
      ensures i >= old(|values|) ==> o == Fail(InvalidIndex) && indices == old(indices) && values == old(values)
      ensures i < old(|values|) ==>
        var last := old(|values|) - 1;
        var gone := old(indices)[i].denseToSparse;
        && o == Pass
        && Erased(old(indices), old(|values|), i, indices)
        && values == old(values)[i := old(values)[last]][..last]
        && indices[gone].sparseToDense == |values|
        && Lookup() == old(Lookup()) - {gone}
        && (i < last ==> indices[i].denseToSparse == old(indices)[last].denseToSparse)
        && (forall j :: 0 <= j < last && j != i ==>
              values[j] == old(values)[j] && indices[j].denseToSparse == old(indices)[j].denseToSparse)
    {
      if !ValidIndex(i) {
        return Fail(InvalidIndex);
      }
      ghost var e, v := indices, values;
      MoveLastOverAndPop(i);
      EraseUpdatesKeyMap(e, v, i, indices, values);
      o := Pass;
    }

    /** `remove_unused_key`: drops the last key exactly when the key space is
        not empty and that key is dead; the values and every live key's index
        stay as they were. */
    method RemoveUnusedKey() returns (removed: bool)
      requires Valid()
      modifies this
      ensures Valid() && values == old(values) && Lookup() == old(Lookup())
      ensures removed <==> old(|indices|) > 0 && old(indices)[old(|indices|) - 1].sparseToDense >= |values|
      ensures removed ==> indices == ShrunkEntries(old(indices))
      ensures !removed ==> indices == old(indices)
    {
      if |indices| == 0 {
        return false;
      }
      var i := indices[|indices| - 1].sparseToDense;
      if i < |values| {
        return false;
      }
      ghost var e := indices;
      SwapLastKeyOutAndPop(i);
      ShrinkKeepsKeyMap(e, values, indices);
      assert Lookup() == KeyMap(e, values);
      removed := true;
    }

    /** The steps `remove_unused_key` takes once it knows the last key is
        dead: swap it, in dense-index space, with the key at the last dense
        position, then drop the last entry. */
    method SwapLastKeyOutAndPop(i: nat)
      requires Valid() && 0 < |indices| && i == indices[|indices| - 1].sparseToDense
      modifies this
      ensures indices == ShrunkEntries(old(indices)) && values == old(values)
    {
      ghost var e := indices;
      var a, b := KeyAndIndexOfIndex(i), KeyAndIndexOfIndex(|indices| - 1);
      SwapIndicesOnlyRelaxed(a, b);
      ghost var mid := indices;
      indices := indices[..|indices| - 1];
      ShrunkBySwap(e, a, b, mid, indices);
    }

    /** `clear`: drops every value, key and persistent data. */
    method Clear()
      modifies this
      ensures Valid() && indices == [] && values == [] && Lookup() == map[]
    {
      values := [];
      indices := [];
    }

    /** `soft_clear`: drops every value; the keys and their persistent data
        remain, all dead. */
    method SoftClear()
      requires Valid()
      modifies this
      ensures Valid() && values == [] && indices == old(indices) && Lookup() == map[]
    {
      values := [];
    }

    /** Writing through the reference `get_persistent_data(key)` returns:
        only that key's data changes; keys past `keys_size()` are refused. */
    method SetPersistentData(k: nat, d: P) returns (o: Outcome)
      requires Valid()
      modifies this
      ensures Valid() && values == old(values) && |indices| == old(|indices|) && Lookup() == old(Lookup())
      ensures k >= old(|indices|) ==> o == Fail(InvalidKey) && indices == old(indices)
      ensures k < old(|indices|) ==> o == Pass && indices == old(indices)[k := old(indices)[k].(sparseData := d)]
    {
      if !ContainsRelaxed(k) {
        return Fail(InvalidKey);
      }
      SetDataKeepsKeyMap(indices, values, k, d, indices[k := indices[k].(sparseData := d)]);
      indices := indices[k := indices[k].(sparseData := d)];
      o := Pass;
    }

    /** `swap_elems(i, j)`: the two elements exchange positions, keys and all;
        every key still resolves to the value it had. */
    method SwapElems(i: nat, j: nat)
      requires Valid() && i < Size() && j < Size()
      modifies this
      ensures Valid() && |indices| == old(|indices|) && DataAgrees(old(indices), indices)
      ensures values == old(values)[i := old(values)[j]][j := old(values)[i]]
      ensures Swapped(old(indices), KeyAndIndex(old(indices)[i].denseToSparse, i), KeyAndIndex(old(indices)[j].denseToSparse, j), indices)
      ensures indices[i].denseToSparse == old(indices)[j].denseToSparse
      ensures indices[j].denseToSparse == old(indices)[i].denseToSparse
      ensures Lookup() == old(Lookup())
    {
      ghost var e, v := indices, values;
      SwapElemsLow(KeyAndIndexOfIndex(i), KeyAndIndexOfIndex(j));
      SwapElemsKeepsKeyMap(e, v, i, j, indices);
    }

    /** `move_elem(from, to)`: the key from `from` now sits at `to` and keeps
        its value; the key from `to` now sits at `from` and holds `leftover`,
        the moved-from value. */
    method MoveElem(from: nat, to: nat, leftover: T)
      requires Valid() && from < Size() && to < Size()
      modifies this
      ensures Valid() && |indices| == old(|indices|) && DataAgrees(old(indices), indices)
      ensures values == old(values)[to := old(values)[from]][from := leftover]
      ensures Swapped(old(indices), KeyAndIndex(old(indices)[from].denseToSparse, from), KeyAndIndex(old(indices)[to].denseToSparse, to), indices)
      ensures indices[to].denseToSparse == old(indices)[from].denseToSparse
      ensures indices[from].denseToSparse == old(indices)[to].denseToSparse
      ensures Lookup() == old(Lookup())[old(indices)[from].denseToSparse := old(values)[from]]
                                       [old(indices)[to].denseToSparse := leftover]
    {
      ghost var e, v := indices, values;
      MoveElemLow(KeyAndIndexOfIndex(from), KeyAndIndexOfIndex(to), leftover);
      MoveElemUpdatesKeyMap(e, v, from, to, leftover, indices);
    }
  }
}
