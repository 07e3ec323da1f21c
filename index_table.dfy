/** The index table of an index map, as a value: one entry per key, holding the
    key's dense position (`sparseToDense`), the key sitting at the dense position
    equal to the entry's own number (`denseToSparse`), and the key's persistent
    data. The `IndexMap` class keeps such a sequence in its `indices` field; the
    functions here say what its in-place updates compute, and the lemmas here
    say why those updates keep the map consistent. */
module IndexTable {

  datatype IndexEntry<P> = IndexEntry(sparseToDense: nat, denseToSparse: nat, sparseData: P)

  /** A key together with a dense index (`KeyAndIndex` in the header). */
  datatype KeyAndIndex = KeyAndIndex(k: nat, i: nat)

  /** The representation invariant of the table: the two index fields are
      mutually inverse permutations of [0, |e|). */
  ghost predicate Inverse<P>(e: seq<IndexEntry<P>>)
  {
    && (forall k {:trigger e[k].sparseToDense} :: 0 <= k < |e| ==>
          e[k].sparseToDense < |e| && e[e[k].sparseToDense].denseToSparse == k)
    && (forall i {:trigger e[i].denseToSparse} :: 0 <= i < |e| ==>
          e[i].denseToSparse < |e| && e[e[i].denseToSparse].sparseToDense == i)
  }

  /** `a` names one element: its key's entry points at its index. */
  ghost predicate Pairs<P>(e: seq<IndexEntry<P>>, a: KeyAndIndex)
  {
    a.k < |e| && a.i < |e| && e[a.k].sparseToDense == a.i
  }

  /** The keys that are live when `size` values are stored. */
  ghost function LiveKeys<P>(e: seq<IndexEntry<P>>, size: nat): set<nat>
  {
    set k | 0 <= k < |e| && e[k].sparseToDense < size
  }

  /** What the map means to a caller: each live key and the value it resolves to. */
  ghost function KeyMap<T, P>(e: seq<IndexEntry<P>>, v: seq<T>): map<nat, T>
  {
    map k | 0 <= k < |e| && e[k].sparseToDense < |v| :: v[e[k].sparseToDense]
  }

  /** `r` is `e` with the dense positions of keys `a.k` and `b.k` exchanged
      and the keys of dense positions `a.i` and `b.i` exchanged; every other
      field, and every persistent data, as in `e`. */
  ghost predicate Swapped<P>(e: seq<IndexEntry<P>>, a: KeyAndIndex, b: KeyAndIndex, r: seq<IndexEntry<P>>)
  {
    && a.k < |e| && b.k < |e| && a.i < |e| && b.i < |e| && |r| == |e|
    && r[a.k].sparseToDense == e[b.k].sparseToDense && r[b.k].sparseToDense == e[a.k].sparseToDense
    && r[a.i].denseToSparse == e[b.i].denseToSparse && r[b.i].denseToSparse == e[a.i].denseToSparse
    && (forall j {:trigger r[j].sparseToDense} :: 0 <= j < |e| && j != a.k && j != b.k ==>
          r[j].sparseToDense == e[j].sparseToDense)
    && (forall j {:trigger r[j].denseToSparse} :: 0 <= j < |e| && j != a.i && j != b.i ==>
          r[j].denseToSparse == e[j].denseToSparse)
    && (forall j {:trigger r[j].sparseData} :: 0 <= j < |e| ==> r[j].sparseData == e[j].sparseData)
  }

  /** `swap_indices_only_relaxed`: exchange the dense positions of the two keys and
      the keys of the two dense positions. Persistent data never moves. */
  function SwapIndices<P>(e: seq<IndexEntry<P>>, a: KeyAndIndex, b: KeyAndIndex): (r: seq<IndexEntry<P>>)
    requires a.k < |e| && b.k < |e| && a.i < |e| && b.i < |e|
    ensures Swapped(e, a, b, r)
  {
    seq(|e|, j requires 0 <= j < |e| =>
      IndexEntry(
        if j == a.k then e[b.k].sparseToDense else if j == b.k then e[a.k].sparseToDense else e[j].sparseToDense,
        if j == a.i then e[b.i].denseToSparse else if j == b.i then e[a.i].denseToSparse else e[j].denseToSparse,
        e[j].sparseData))
  }

  /** The entries `prepare_keys_for_insertion` adds for keys from..to-1: each one
      dead and mapped to itself, with value-initialised persistent data. */
  function IdentityEntries<P>(from: nat, to: nat, blank: P): (r: seq<IndexEntry<P>>)
    requires from <= to
    ensures |r| == to - from
    ensures forall j :: 0 <= j < |r| ==> r[j] == IndexEntry(from + j, from + j, blank)
  {
    seq(to - from, j requires 0 <= j < to - from => IndexEntry(from + j, from + j, blank))
  }

  /** The key an insertion hands out when `size` values were stored: the key
      parked at dense position `size` if there is one, else a fresh key. */
  function InsertedKey<P>(e: seq<IndexEntry<P>>, size: nat): (k: nat)
    requires Inverse(e) && size <= |e|
    ensures size < |e| ==> k < |e| && e[k].sparseToDense == size
    ensures size == |e| ==> k == |e|
    ensures k !in LiveKeys(e, size)
  {
    if size < |e| then e[size].denseToSparse else |e|
  }

  /** The table after an insertion when `size` values were stored: unchanged when
      a key is reused, one fresh self-mapped entry longer otherwise. */
  function InsertedEntries<P>(e: seq<IndexEntry<P>>, size: nat, blank: P): (r: seq<IndexEntry<P>>)
    requires size <= |e|
    ensures |r| == if size < |e| then |e| else |e| + 1
    ensures r[..|e|] == e
  {
    if size < |e| then e else e + [IndexEntry(|e|, |e|, blank)]
  }

  /** The table after erasing the value at dense index `i`: the element at the
      last dense position and the erased one exchange their index entries. */
  function ErasedEntries<P>(e: seq<IndexEntry<P>>, size: nat, i: nat): (r: seq<IndexEntry<P>>)
    requires Inverse(e) && i < size <= |e|
    ensures Erased(e, size, i, r)
  {
    SwapIndices(e, KeyAndIndex(e[size - 1].denseToSparse, size - 1), KeyAndIndex(e[i].denseToSparse, i))
  }

  /** `r` is `e` after `erase` at dense index `i` with `size` values stored:
      the erased element's entries and the last element's are exchanged. */
  ghost predicate Erased<P>(e: seq<IndexEntry<P>>, size: nat, i: nat, r: seq<IndexEntry<P>>)
  {
    i < size <= |e| && Swapped(e, KeyAndIndex(e[size - 1].denseToSparse, size - 1), KeyAndIndex(e[i].denseToSparse, i), r)
  }

  /** The table after `remove_unused_key` succeeds: the last key is swapped, in
      dense-index space, with the key at the last dense position, and dropped. */
  function ShrunkEntries<P>(e: seq<IndexEntry<P>>): (r: seq<IndexEntry<P>>)
    requires Inverse(e) && |e| > 0
    ensures |r| == |e| - 1
  {
    var s := e[|e| - 1].sparseToDense;
    SwapIndices(e, KeyAndIndex(e[s].denseToSparse, s), KeyAndIndex(e[|e| - 1].denseToSparse, |e| - 1))[..|e| - 1]
  }

  /** The two field swaps of `swap_indices_only_relaxed`, done one entry
      update at a time, produce `SwapIndices`. */
  lemma SwapIndicesInSteps<P>(e: seq<IndexEntry<P>>, a: KeyAndIndex, b: KeyAndIndex)
    requires a.k < |e| && b.k < |e| && a.i < |e| && b.i < |e|
    ensures var s1 := e[a.k := e[a.k].(sparseToDense := e[b.k].sparseToDense)];
      var s2 := s1[b.k := s1[b.k].(sparseToDense := e[a.k].sparseToDense)];
      var s3 := s2[a.i := s2[a.i].(denseToSparse := s2[b.i].denseToSparse)];
      var s4 := s3[b.i := s3[b.i].(denseToSparse := s2[a.i].denseToSparse)];
      Swapped(e, a, b, s4)
  {
  }

  /** `Swapped` pins the result down: it is `SwapIndices`. */
  lemma SwappedIsSwapIndices<P>(e: seq<IndexEntry<P>>, a: KeyAndIndex, b: KeyAndIndex, r: seq<IndexEntry<P>>)
    requires Swapped(e, a, b, r)
    ensures r == SwapIndices(e, a, b)
  {
    var w := SwapIndices(e, a, b);
    forall j | 0 <= j < |e|
      ensures r[j] == w[j]
    {
      assert r[j].sparseToDense == w[j].sparseToDense && r[j].denseToSparse == w[j].denseToSparse;
    }
  }

  /** Exchanging two elements' entries keeps the table consistent. */
  lemma SwappedKeepsInverse<P>(e: seq<IndexEntry<P>>, a: KeyAndIndex, b: KeyAndIndex, r: seq<IndexEntry<P>>)
    requires Inverse(e) && Pairs(e, a) && Pairs(e, b) && Swapped(e, a, b, r)
    ensures Inverse(r)
  {
    SwappedIsSwapIndices(e, a, b, r);
    SwapIndicesKeepsInverse(e, a, b);
  }

  /** The swap `erase` makes, stated as `move_elem_low` sees it (between the
      element at the last dense position and the erased one), is `Erased`. */
  lemma ErasedByMove<P>(e: seq<IndexEntry<P>>, size: nat, last: KeyAndIndex, target: KeyAndIndex, r: seq<IndexEntry<P>>)
    requires Inverse(e) && target.i < size <= |e| && Pairs(e, last) && Pairs(e, target) && last.i == size - 1
    requires Swapped(e, last, target, r)
    ensures Erased(e, size, target.i, r)
  {
    assert last == KeyAndIndex(e[size - 1].denseToSparse, size - 1);
    assert target == KeyAndIndex(e[target.i].denseToSparse, target.i);
  }

  /** `remove_unused_key`'s swap followed by dropping the last entry gives
      `ShrunkEntries`. */
  lemma ShrunkBySwap<P>(e: seq<IndexEntry<P>>, a: KeyAndIndex, b: KeyAndIndex, mid: seq<IndexEntry<P>>, r: seq<IndexEntry<P>>)
    requires Inverse(e) && |e| > 0
    requires a == KeyAndIndex(e[e[|e| - 1].sparseToDense].denseToSparse, e[|e| - 1].sparseToDense)
    requires b == KeyAndIndex(e[|e| - 1].denseToSparse, |e| - 1)
    requires Swapped(e, a, b, mid) && r == mid[..|e| - 1]
    ensures r == ShrunkEntries(e)
  {
    SwappedIsSwapIndices(e, a, b, mid);
  }

  /** Moving the last value onto itself changes nothing. */
  lemma SelfMoveOfLast<T>(v: seq<T>, i: nat, moved: seq<T>, r: seq<T>)
    requires i < |v| && moved == v[i := v[|v| - 1]][|v| - 1 := v[|v| - 1]]
    requires r == moved[..|v| - 1]
    ensures r == v[i := v[|v| - 1]][..|v| - 1]
  {
    assert moved == v[i := v[|v| - 1]];
  }

  /** Swapping the entries of two elements keeps the two index fields inverse,
      and the two keys now point at each other's former positions. */
  lemma SwapIndicesKeepsInverse<P>(e: seq<IndexEntry<P>>, a: KeyAndIndex, b: KeyAndIndex)
    requires Inverse(e) && Pairs(e, a) && Pairs(e, b)
    ensures var r := SwapIndices(e, a, b);
      && Inverse(r)
      && r[a.k].sparseToDense == b.i && r[b.k].sparseToDense == a.i
      && r[a.i].denseToSparse == b.k && r[b.i].denseToSparse == a.k
  {
    var r := SwapIndices(e, a, b);
    assert e[a.i].denseToSparse == a.k && e[b.i].denseToSparse == b.k;
    forall k | 0 <= k < |r|
      ensures r[k].sparseToDense < |r| && r[r[k].sparseToDense].denseToSparse == k
    {
      SwapKeyAt(e, a, b, k);
    }
    forall i | 0 <= i < |r|
      ensures r[i].denseToSparse < |r| && r[r[i].denseToSparse].sparseToDense == i
    {
      SwapIndexAt(e, a, b, i);
    }
  }

  lemma SwapKeyAt<P>(e: seq<IndexEntry<P>>, a: KeyAndIndex, b: KeyAndIndex, k: nat)
    requires Inverse(e) && Pairs(e, a) && Pairs(e, b) && k < |e|
    ensures var r := SwapIndices(e, a, b);
      r[k].sparseToDense < |r| && r[r[k].sparseToDense].denseToSparse == k
  {
    var j := e[k].sparseToDense;
    assert e[a.i].denseToSparse == a.k && e[b.i].denseToSparse == b.k;
    if k != a.k && k != b.k {
      assert j != a.i && j != b.i;
    }
  }

  lemma SwapIndexAt<P>(e: seq<IndexEntry<P>>, a: KeyAndIndex, b: KeyAndIndex, i: nat)
    requires Inverse(e) && Pairs(e, a) && Pairs(e, b) && i < |e|
    ensures var r := SwapIndices(e, a, b);
      r[i].denseToSparse < |r| && r[r[i].denseToSparse].sparseToDense == i
  {
    var k := e[i].denseToSparse;
    assert e[a.i].denseToSparse == a.k && e[b.i].denseToSparse == b.k;
    if i != a.i && i != b.i {
      assert k != a.k && k != b.k;
    }
  }

  /** Adding self-mapped entries at the end keeps the table consistent. */
  lemma AppendIdentityKeepsInverse<P>(e: seq<IndexEntry<P>>, n: nat, blank: P)
    requires Inverse(e) && |e| <= n
    ensures Inverse(e + IdentityEntries(|e|, n, blank))
  {
    var r := e + IdentityEntries(|e|, n, blank);
    forall k | 0 <= k < |r|
      ensures r[k].sparseToDense < |r| && r[r[k].sparseToDense].denseToSparse == k
    {
      if k < |e| {
        assert r[k] == e[k] && r[e[k].sparseToDense] == e[e[k].sparseToDense];
      } else {
        assert r[k] == IndexEntry(k, k, blank);
      }
    }
    forall i | 0 <= i < |r|
      ensures r[i].denseToSparse < |r| && r[r[i].denseToSparse].sparseToDense == i
    {
      if i < |e| {
        assert r[i] == e[i] && r[e[i].denseToSparse] == e[e[i].denseToSparse];
      } else {
        assert r[i] == IndexEntry(i, i, blank);
      }
    }
  }

  /** A last entry that maps to itself can be dropped. */
  lemma DropSelfMappedLastKeepsInverse<P>(e: seq<IndexEntry<P>>)
    requires Inverse(e) && |e| > 0 && e[|e| - 1].sparseToDense == |e| - 1
    ensures Inverse(e[..|e| - 1])
  {
    var n := |e| - 1;
    var r := e[..n];
    forall k | 0 <= k < n
      ensures r[k].sparseToDense < n && r[r[k].sparseToDense].denseToSparse == k
    {
      assert e[k].sparseToDense != n;
    }
    forall i | 0 <= i < n
      ensures r[i].denseToSparse < n && r[r[i].denseToSparse].sparseToDense == i
    {
      assert e[i].denseToSparse != n;
    }
  }

  /** There are exactly as many live keys as stored values: the live keys are
      the keys found at dense positions 0..size-1, all distinct. */
  lemma {:induction false} LiveKeysCount<P>(e: seq<IndexEntry<P>>, size: nat)
    requires Inverse(e) && size <= |e|
    ensures |LiveKeys(e, size)| == size
  {
    if size == 0 {
      assert LiveKeys(e, 0) == {};
    } else {
      var s := size - 1;
      var k := e[s].denseToSparse;
      LiveKeysCount(e, s);
      assert LiveKeys(e, size) == LiveKeys(e, s) + {k} by {
        forall j | j in LiveKeys(e, size) && j !in LiveKeys(e, s)
          ensures j == k
        {
          assert e[j].sparseToDense == s;
        }
      }
      assert k !in LiveKeys(e, s);
    }
  }

  /** The key map has exactly as many entries as there are values. */
  lemma KeyMapSize<T, P>(e: seq<IndexEntry<P>>, v: seq<T>)
    requires Inverse(e) && |v| <= |e|
    ensures |KeyMap(e, v)| == |v|
  {
    LiveKeysCount(e, |v|);
    assert KeyMap(e, v).Keys == LiveKeys(e, |v|);
  }

  datatype Option<T> = None | Some(value: T)

  /** What key `k` resolves to: its value if it is live, nothing otherwise. */
  ghost function Resolve<T, P>(e: seq<IndexEntry<P>>, v: seq<T>, k: nat): Option<T>
  {
    if k < |e| && e[k].sparseToDense < |v| then Some(v[e[k].sparseToDense]) else None
  }

  ghost function Get<T>(m: map<nat, T>, k: nat): Option<T>
  {
    if k in m then Some(m[k]) else None
  }

  lemma ResolveAgreesWithKeyMap<T, P>(e: seq<IndexEntry<P>>, v: seq<T>, k: nat)
    ensures Get(KeyMap(e, v), k) == Resolve(e, v, k)
  {
  }

  /** Two key maps are equal when every key resolves alike. */
  lemma KeyMapByResolve<T, P>(e: seq<IndexEntry<P>>, v: seq<T>, m: map<nat, T>)
    requires forall k: nat :: Resolve(e, v, k) == Get(m, k)
    ensures KeyMap(e, v) == m
  {
    var km := KeyMap(e, v);
    forall k: nat
      ensures (k in km) == (k in m) && (k in km ==> km[k] == m[k])
    {
      ResolveAgreesWithKeyMap(e, v, k);
    }
  }

  lemma InsertAt<T, P>(e: seq<IndexEntry<P>>, v: seq<T>, x: T, blank: P, k: nat)
    requires Inverse(e) && |v| <= |e|
    ensures Resolve(InsertedEntries(e, |v|, blank), v + [x], k)
         == if k == InsertedKey(e, |v|) then Some(x) else Resolve(e, v, k)
  {
    var r := InsertedEntries(e, |v|, blank);
    if k != InsertedKey(e, |v|) && k < |e| {
      assert r[k] == e[k];
    }
  }

  /** Insertion: the chosen key, dead before, becomes live at the new last
      position and resolves to the inserted value; every other key is untouched. */
  lemma InsertUpdatesKeyMap<T, P>(e: seq<IndexEntry<P>>, v: seq<T>, x: T, blank: P)
    requires Inverse(e) && |v| <= |e|
    ensures var r := InsertedEntries(e, |v|, blank);
      var k := InsertedKey(e, |v|);
      && Inverse(r) && |v| + 1 <= |r|
      && k < |r| && r[k].sparseToDense == |v|
      && k !in KeyMap(e, v)
      && KeyMap(r, v + [x]) == KeyMap(e, v)[k := x]
  {
    var r := InsertedEntries(e, |v|, blank);
    var key := InsertedKey(e, |v|);
    if |v| == |e| {
      assert r == e + IdentityEntries(|e|, |e| + 1, blank);
      AppendIdentityKeepsInverse(e, |e| + 1, blank);
    }
    var m := KeyMap(e, v)[key := x];
    forall k: nat
      ensures Resolve(r, v + [x], k) == Get(m, k)
    {
      InsertAt(e, v, x, blank, k);
      ResolveAgreesWithKeyMap(e, v, k);
    }
    KeyMapByResolve(r, v + [x], m);
    ResolveAgreesWithKeyMap(e, v, key);
  }

  lemma ErasedPositionAt<P>(e: seq<IndexEntry<P>>, size: nat, i: nat, k: nat)
    requires Inverse(e) && i < size <= |e| && k < |e|
    ensures ErasedEntries(e, size, i)[k].sparseToDense
         == if k == e[size - 1].denseToSparse then i
            else if k == e[i].denseToSparse then size - 1
            else e[k].sparseToDense
  {
  }

  lemma EraseAt<T, P>(e: seq<IndexEntry<P>>, v: seq<T>, i: nat, k: nat)
    requires Inverse(e) && i < |v| <= |e|
    ensures Resolve(ErasedEntries(e, |v|, i), v[i := v[|v| - 1]][..|v| - 1], k)
         == if k == e[i].denseToSparse then None else Resolve(e, v, k)
  {
    var last := |v| - 1;
    var v' := v[i := v[last]][..last];
    if k < |e| {
      ErasedPositionAt(e, |v|, i, k);
      if k == e[last].denseToSparse {
        if i < last {
          assert v'[i] == v[last];
        }
      } else if k != e[i].denseToSparse {
        var p := e[k].sparseToDense;
        if p < last {
          assert p != i;
          assert v'[p] == v[p];
        }
      }
    }
  }

  lemma EraseKeyMap<T, P>(e: seq<IndexEntry<P>>, v: seq<T>, i: nat, r: seq<IndexEntry<P>>, w: seq<T>, m: map<nat, T>)
    requires Inverse(e) && i < |v| <= |e|
    requires r == ErasedEntries(e, |v|, i) && w == v[i := v[|v| - 1]][..|v| - 1]
    requires m == KeyMap(e, v) - {e[i].denseToSparse}
    ensures KeyMap(r, w) == m
  {
    forall k: nat
      ensures Resolve(r, w, k) == Get(m, k)
    {
      EraseAt(e, v, i, k);
      ResolveAgreesWithKeyMap(e, v, k);
    }
    KeyMapByResolve(r, w, m);
  }

  /** Swap-and-pop erase of the value at dense index `i`: the erased key drops
      out and is parked at the new live boundary, the former last element takes
      position `i`, every other key keeps its value, and the table stays
      consistent. */
  lemma EraseUpdatesKeyMap<T, P>(e: seq<IndexEntry<P>>, v: seq<T>, i: nat, r: seq<IndexEntry<P>>, w: seq<T>)
    requires Inverse(e) && i < |v| <= |e|
    requires Erased(e, |v|, i, r) && w == v[i := v[|v| - 1]][..|v| - 1]
    ensures Inverse(r) && |r| == |e| && |w| == |v| - 1 && DataAgrees(e, r)
    ensures r[e[i].denseToSparse].sparseToDense == |w|
    ensures i < |w| ==> r[i].denseToSparse == e[|w|].denseToSparse && w[i] == v[|w|]
    ensures forall j :: 0 <= j < |w| && j != i ==> w[j] == v[j] && r[j].denseToSparse == e[j].denseToSparse
    ensures KeyMap(r, w) == KeyMap(e, v) - {e[i].denseToSparse}
  {
    var last := |v| - 1;
    SwappedIsSwapIndices(e, KeyAndIndex(e[last].denseToSparse, last), KeyAndIndex(e[i].denseToSparse, i), r);
    SwapIndicesKeepsInverse(e, KeyAndIndex(e[last].denseToSparse, last), KeyAndIndex(e[i].denseToSparse, i));
    EraseKeyMap(e, v, i, r, w, KeyMap(e, v) - {e[i].denseToSparse});
  }

  lemma SwapElemsAt<T, P>(e: seq<IndexEntry<P>>, v: seq<T>, i: nat, j: nat, k: nat)
    requires Inverse(e) && i < |v| <= |e| && j < |v|
    ensures var a := KeyAndIndex(e[i].denseToSparse, i);
      var b := KeyAndIndex(e[j].denseToSparse, j);
      Resolve(SwapIndices(e, a, b), v[i := v[j]][j := v[i]], k) == Resolve(e, v, k)
  {
    var a := KeyAndIndex(e[i].denseToSparse, i);
    var b := KeyAndIndex(e[j].denseToSparse, j);
    var v' := v[i := v[j]][j := v[i]];
    var r := SwapIndices(e, a, b);
    if k >= |e| {
    } else if k == a.k {
      assert r[k].sparseToDense == j && v'[j] == v[i];
    } else if k == b.k {
      assert r[k].sparseToDense == i && v'[i] == v[j];
    } else {
      var p := e[k].sparseToDense;
      assert p != i && p != j;
      assert r[k].sparseToDense == p;
      if p < |v| {
        assert v'[p] == v[p];
      }
    }
  }

  /** `swap_elems`: exchanging two values together with their entries leaves
      every key resolving to the value it had. */
  lemma SwapElemsKeepsKeyMap<T, P>(e: seq<IndexEntry<P>>, v: seq<T>, i: nat, j: nat, r: seq<IndexEntry<P>>)
    requires Inverse(e) && i < |v| <= |e| && j < |v|
    requires Swapped(e, KeyAndIndex(e[i].denseToSparse, i), KeyAndIndex(e[j].denseToSparse, j), r)
    ensures Inverse(r)
    ensures r[i].denseToSparse == e[j].denseToSparse && r[j].denseToSparse == e[i].denseToSparse
    ensures KeyMap(r, v[i := v[j]][j := v[i]]) == KeyMap(e, v)
  {
    var a := KeyAndIndex(e[i].denseToSparse, i);
    var b := KeyAndIndex(e[j].denseToSparse, j);
    SwappedIsSwapIndices(e, a, b, r);
    SwapIndicesKeepsInverse(e, a, b);
    var v' := v[i := v[j]][j := v[i]];
    var m := KeyMap(e, v);
    forall k: nat
      ensures Resolve(r, v', k) == Get(m, k)
    {
      SwapElemsAt(e, v, i, j, k);
      ResolveAgreesWithKeyMap(e, v, k);
    }
    KeyMapByResolve(r, v', m);
  }

  lemma MoveElemAt<T, P>(e: seq<IndexEntry<P>>, v: seq<T>, from: nat, to: nat, leftover: T, k: nat)
    requires Inverse(e) && from < |v| <= |e| && to < |v|
    ensures var a := KeyAndIndex(e[from].denseToSparse, from);
      var b := KeyAndIndex(e[to].denseToSparse, to);
      Resolve(SwapIndices(e, a, b), v[to := v[from]][from := leftover], k)
        == if k == b.k then Some(leftover) else if k == a.k then Some(v[from]) else Resolve(e, v, k)
  {
    var a := KeyAndIndex(e[from].denseToSparse, from);
    var b := KeyAndIndex(e[to].denseToSparse, to);
    var v' := v[to := v[from]][from := leftover];
    var r := SwapIndices(e, a, b);
    if k == b.k {
      assert r[k].sparseToDense == from && v'[from] == leftover;
    } else if k == a.k {
      assert r[k].sparseToDense == to && v'[to] == v[from];
    } else if k < |e| {
        var p := e[k].sparseToDense;
        assert p != from && p != to;
        assert r[k].sparseToDense == p;
        if p < |v| {
          assert v'[p] == v[p];
        }
    }
  }

  lemma MoveElemResolves<T, P>(e: seq<IndexEntry<P>>, v: seq<T>, from: nat, to: nat, leftover: T,
                                r: seq<IndexEntry<P>>, w: seq<T>, m: map<nat, T>)
    requires Inverse(e) && from < |v| <= |e| && to < |v|
    requires r == SwapIndices(e, KeyAndIndex(e[from].denseToSparse, from), KeyAndIndex(e[to].denseToSparse, to))
    requires w == v[to := v[from]][from := leftover]
    requires m == KeyMap(e, v)[e[from].denseToSparse := v[from]][e[to].denseToSparse := leftover]
    ensures KeyMap(r, w) == m
  {
    forall k: nat
      ensures Resolve(r, w, k) == Get(m, k)
    {
      MoveElemAt(e, v, from, to, leftover, k);
      ResolveAgreesWithKeyMap(e, v, k);
    }
    KeyMapByResolve(r, w, m);
  }

  lemma MoveElemKeyMap<T, P>(e: seq<IndexEntry<P>>, v: seq<T>, from: nat, to: nat, leftover: T)
    requires Inverse(e) && from < |v| <= |e| && to < |v|
    ensures var a := KeyAndIndex(e[from].denseToSparse, from);
      var b := KeyAndIndex(e[to].denseToSparse, to);
      KeyMap(SwapIndices(e, a, b), v[to := v[from]][from := leftover])
        == KeyMap(e, v)[a.k := v[from]][b.k := leftover]
  {
    MoveElemResolves(e, v, from, to, leftover,
                     SwapIndices(e, KeyAndIndex(e[from].denseToSparse, from), KeyAndIndex(e[to].denseToSparse, to)),
                     v[to := v[from]][from := leftover],
                     KeyMap(e, v)[e[from].denseToSparse := v[from]][e[to].denseToSparse := leftover]);
  }

  /** `move_elem(from, to)`: the key that was at `from` now sits at `to` and
      keeps its value; the key that was at `to` now sits at `from` and holds
      whatever the move left behind. */
  lemma MoveElemUpdatesKeyMap<T, P>(e: seq<IndexEntry<P>>, v: seq<T>, from: nat, to: nat, leftover: T,
                                    r: seq<IndexEntry<P>>)
    requires Inverse(e) && from < |v| <= |e| && to < |v|
    requires Swapped(e, KeyAndIndex(e[from].denseToSparse, from), KeyAndIndex(e[to].denseToSparse, to), r)
    ensures Inverse(r)
    ensures r[to].denseToSparse == e[from].denseToSparse && r[from].denseToSparse == e[to].denseToSparse
    ensures KeyMap(r, v[to := v[from]][from := leftover])
      == KeyMap(e, v)[e[from].denseToSparse := v[from]][e[to].denseToSparse := leftover]
  {
    var a := KeyAndIndex(e[from].denseToSparse, from);
    var b := KeyAndIndex(e[to].denseToSparse, to);
    SwappedIsSwapIndices(e, a, b, r);
    SwapIndicesKeepsInverse(e, a, b);
    MoveElemKeyMap(e, v, from, to, leftover);
  }

  lemma ShrinkAt<T, P>(e: seq<IndexEntry<P>>, v: seq<T>, k: nat)
    requires Inverse(e) && |v| <= |e| && |e| > 0 && e[|e| - 1].sparseToDense >= |v|
    ensures Resolve(ShrunkEntries(e), v, k) == Resolve(e, v, k)
    ensures k < |e| - 1 && e[k].sparseToDense < |v| ==> ShrunkEntries(e)[k].sparseToDense == e[k].sparseToDense
  {
    var n := |e| - 1;
    var s := e[n].sparseToDense;
    var a := KeyAndIndex(e[s].denseToSparse, s);
    var b := KeyAndIndex(e[n].denseToSparse, n);
    var w := SwapIndices(e, a, b);
    assert a.k == n;
    // The key at the last dense position is dead: that position is at or past
    // the live boundary, and the swap moves it to `s`, also past the boundary.
    assert e[b.k].sparseToDense == n;
    if k < n {
      assert ShrunkEntries(e)[k] == w[k];
      if k == b.k {
        assert w[k].sparseToDense == s;
      } else {
        assert w[k].sparseToDense == e[k].sparseToDense;
      }
    }
  }

  lemma ShrinkResolves<T, P>(e: seq<IndexEntry<P>>, v: seq<T>, r: seq<IndexEntry<P>>, m: map<nat, T>)
    requires Inverse(e) && |v| <= |e| && |e| > 0 && e[|e| - 1].sparseToDense >= |v|
    requires r == ShrunkEntries(e) && m == KeyMap(e, v)
    ensures forall k: nat :: Resolve(r, v, k) == Get(m, k)
  {
    forall k: nat
      ensures Resolve(r, v, k) == Get(m, k)
    {
      ShrinkAt(e, v, k);
      ResolveAgreesWithKeyMap(e, v, k);
    }
  }

  lemma ShrinkKeepsInverse<P>(e: seq<IndexEntry<P>>, size: nat, r: seq<IndexEntry<P>>)
    requires Inverse(e) && size <= |e| && |e| > 0 && e[|e| - 1].sparseToDense >= size
    requires r == ShrunkEntries(e)
    ensures Inverse(r) && size <= |r|
    ensures DataAgrees(e, r)
  {
    var n := |e| - 1;
    var s := e[n].sparseToDense;
    var a := KeyAndIndex(e[s].denseToSparse, s);
    var b := KeyAndIndex(e[n].denseToSparse, n);
    assert a.k == n;
    SwapIndicesKeepsInverse(e, a, b);
    var w := SwapIndices(e, a, b);
    assert r == w[..n];
    DropSelfMappedLastKeepsInverse(w);
  }

  lemma ShrinkKeyMap<T, P>(e: seq<IndexEntry<P>>, v: seq<T>)
    requires Inverse(e) && |v| <= |e| && |e| > 0 && e[|e| - 1].sparseToDense >= |v|
    ensures KeyMap(ShrunkEntries(e), v) == KeyMap(e, v)
  {
    var r := ShrunkEntries(e);
    var m := KeyMap(e, v);
    ShrinkResolves(e, v, r, m);
    KeyMapByResolve(r, v, m);
  }

  /** `remove_unused_key` on a dead last key: the table shrinks by one, stays
      consistent, and no live key changes its position or its value. */
  lemma ShrinkKeepsKeyMap<T, P>(e: seq<IndexEntry<P>>, v: seq<T>, r: seq<IndexEntry<P>>)
    requires Inverse(e) && |v| <= |e| && |e| > 0 && e[|e| - 1].sparseToDense >= |v|
    requires r == ShrunkEntries(e)
    ensures Inverse(r) && |v| <= |r| && DataAgrees(e, r)
    ensures forall k :: 0 <= k < |r| && e[k].sparseToDense < |v| ==> r[k].sparseToDense == e[k].sparseToDense
    ensures KeyMap(r, v) == KeyMap(e, v)
  {
    ShrinkKeepsInverse(e, |v|, r);
    forall k | 0 <= k < |r| && e[k].sparseToDense < |v|
      ensures r[k].sparseToDense == e[k].sparseToDense
    {
      ShrinkAt(e, v, k);
    }
    ShrinkKeyMap(e, v);
  }

  /** The key at a live dense position is live and resolves to the value there. */
  lemma KeyAtIndexIsLive<T, P>(e: seq<IndexEntry<P>>, v: seq<T>, i: nat)
    requires Inverse(e) && i < |v| <= |e|
    ensures e[i].denseToSparse in KeyMap(e, v)
    ensures KeyMap(e, v)[e[i].denseToSparse] == v[i]
  {
    var k := e[i].denseToSparse;
    assert e[k].sparseToDense == i;
  }

  lemma AppendIdentityAt<T, P>(e: seq<IndexEntry<P>>, v: seq<T>, n: nat, blank: P, k: nat)
    requires |v| <= |e| <= n
    ensures Resolve(e + IdentityEntries(|e|, n, blank), v, k) == Get(KeyMap(e, v), k)
  {
    ResolveAgreesWithKeyMap(e, v, k);
    var r := e + IdentityEntries(|e|, n, blank);
    if k < |e| {
      assert r[k] == e[k];
    } else if k < n {
      assert r[k].sparseToDense == k;
    }
  }

  /** Growing the key space adds only dead keys: the key map is unchanged. */
  lemma AppendIdentityKeepsKeyMap<T, P>(e: seq<IndexEntry<P>>, v: seq<T>, n: nat, blank: P)
    requires |v| <= |e| <= n
    ensures KeyMap(e + IdentityEntries(|e|, n, blank), v) == KeyMap(e, v)
  {
    var r := e + IdentityEntries(|e|, n, blank);
    var m := KeyMap(e, v);
    forall k: nat
      ensures Resolve(r, v, k) == Get(m, k)
    {
      AppendIdentityAt(e, v, n, blank, k);
    }
    KeyMapByResolve(r, v, m);
  }

  /** Writing one key's persistent data touches neither index field, so the
      table stays consistent and the key map is unchanged. */
  lemma SetDataKeepsKeyMap<T, P>(e: seq<IndexEntry<P>>, v: seq<T>, k: nat, d: P, r: seq<IndexEntry<P>>)
    requires Inverse(e) && k < |e| && r == e[k := e[k].(sparseData := d)]
    ensures Inverse(r) && KeyMap(r, v) == KeyMap(e, v)
  {
    assert forall j :: 0 <= j < |r| ==>
      r[j].sparseToDense == e[j].sparseToDense && r[j].denseToSparse == e[j].denseToSparse;
    forall j: nat
      ensures Resolve(r, v, j) == Get(KeyMap(e, v), j)
    {
      ResolveAgreesWithKeyMap(e, v, j);
    }
    KeyMapByResolve(r, v, KeyMap(e, v));
  }

  /** Every key present in both tables carries the same persistent data. */
  ghost predicate DataAgrees<P>(a: seq<IndexEntry<P>>, b: seq<IndexEntry<P>>)
  {
    forall k :: 0 <= k < |a| && k < |b| ==> a[k].sparseData == b[k].sparseData
  }

  /** What a `KeyValueRef` at dense index `index` shows: the element's key,
      index, value and the persistent data of its key. */
  datatype Element<T, P> = Element(key: nat, index: nat, value: T, data: P)

  function ElementOf<T, P>(e: seq<IndexEntry<P>>, v: seq<T>, i: nat): (r: Element<T, P>)
    requires Inverse(e) && i < |v| <= |e|
    ensures r.index == i && r.value == v[i]
    ensures r.key < |e| && e[r.key].sparseToDense == i && r.data == e[r.key].sparseData
  {
    var k := e[i].denseToSparse;
    Element(k, i, v[i], e[k].sparseData)
  }

  /** The persistent-data entry `add_key_for_inserted_value` hands back, as the
      header writes it (include/em/index_map.h:489-490): the entry numbered
      `size`, read as a dense position, although persistent data belongs to keys. */
  function DataSlotAsWritten<P>(e: seq<IndexEntry<P>>, size: nat): (slot: nat)
    requires Inverse(e) && size <= |e|
    ensures slot == size
  {
    size
  }

  /** The entry an insertion should hand back: that of the key it returns,
      which is the key now stored at dense position `size`. */
  function IntendedDataSlot<P>(e: seq<IndexEntry<P>>, size: nat): (slot: nat)
    requires Inverse(e) && size <= |e|
    ensures size < |e| ==> slot < |e| && e[slot].sparseToDense == size && e[size].denseToSparse == slot
    ensures size == |e| ==> slot == |e|
  {
    InsertedKey(e, size)
  }

  /** For every consistent table and every insertion that reuses a parked
      key, the as-written data slot is the returned key's own entry exactly
      when that key is parked at the entry with its own number. */
  lemma DataSlotIsKeyIff<P>(e: seq<IndexEntry<P>>, s: nat)
    requires Inverse(e) && s < |e|
    ensures DataSlotAsWritten(e, s) == IntendedDataSlot(e, s) <==> e[s].denseToSparse == s
    ensures InsertedKey(e, s) == e[s].denseToSparse
  {
  }

  /** After four insertions and the erasure of key 1, the next insertion reuses
      key 1 but the as-written data slot is that of key 3. */
  lemma DataSlotAsWrittenIsForeign()
    ensures var e := [IndexEntry(0, 0, 100), IndexEntry(3, 3, 200), IndexEntry(2, 2, 300), IndexEntry(1, 1, 400)];
      && Inverse(e)
      && InsertedKey(e, 3) == 1
      && DataSlotAsWritten(e, 3) == 3
      && IntendedDataSlot(e, 3) == 1
  {
    var e := [IndexEntry(0, 0, 100), IndexEntry(3, 3, 200), IndexEntry(2, 2, 300), IndexEntry(1, 1, 400)];
    assert Inverse(e);
  }
}
