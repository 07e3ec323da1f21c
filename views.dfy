/** The two views of an index map that can erase — the value view and the
    key-value view — and the free `erase_if`/`erase` that scan them backwards,
    erasing with swap-and-pop. */
module Views {
  import opened Errors
  import opened IndexTable
  import opened IndexMaps

  // ---------------------------------------------------------------------------
  // What a backwards scan with predicate `f` leaves, once the positions `n ..`
  // have been visited.

  /** The elements a `KeyValueRef` shows at each dense position. */
  ghost function Elements<T, P>(e: seq<IndexEntry<P>>, v: seq<T>): seq<Element<T, P>>
    requires Inverse(e) && |v| <= |e|
  {
    seq(|v|, i requires 0 <= i < |v| => ElementOf(e, v, i))
  }

  /** The values of the elements at positions `lo ..` that `f` rejects, in
      order. */
  ghost function KeptValues<T, P>(els: seq<Element<T, P>>, f: Element<T, P> -> bool, lo: nat): (r: seq<T>)
    requires lo <= |els|
    ensures |r| + Matches(els, f, lo) == |els| - lo
    decreases |els| - lo
  {
    if lo == |els| then []
    else (if f(els[lo]) then [] else [els[lo].value]) + KeptValues(els, f, lo + 1)
  }

  /** How many of the elements at positions `lo ..` `f` accepts. */
  ghost function Matches<T, P>(els: seq<Element<T, P>>, f: Element<T, P> -> bool, lo: nat): (r: nat)
    requires lo <= |els|
    ensures r <= |els| - lo
    decreases |els| - lo
  {
    if lo == |els| then 0
    else (if f(els[lo]) then 1 else 0) + Matches(els, f, lo + 1)
  }

  /** The element of live key `k`, as a `KeyValueRef` at its position shows it. */
  ghost function ElementOfKey<T, P>(e: seq<IndexEntry<P>>, v: seq<T>, k: nat): Element<T, P>
    requires k < |e| && e[k].sparseToDense < |v|
  {
    Element(k, e[k].sparseToDense, v[e[k].sparseToDense], e[k].sparseData)
  }

  /** The key map once positions `n ..` have been visited: a live key survives
      when its position is still unvisited or `f` rejects its element. */
  ghost function Survivors<T, P>(e: seq<IndexEntry<P>>, v: seq<T>, f: Element<T, P> -> bool, n: nat): map<nat, T>
  {
    map k | 0 <= k < |e| && e[k].sparseToDense < |v|
                && (e[k].sparseToDense < n || !f(ElementOfKey(e, v, k)))
      :: v[e[k].sparseToDense]
  }

  /** Key `k` is the only key whose entry points at position `n`. */
  ghost predicate OwnsPosition<P>(e: seq<IndexEntry<P>>, n: nat, k: nat)
  {
    && k < |e| && e[k].sparseToDense == n
    && forall j :: 0 <= j < |e| && e[j].sparseToDense == n ==> j == k
  }

  /** In a consistent table every position has exactly one owner, the key
      the inverse field names. */
  lemma PositionOwner<P>(e: seq<IndexEntry<P>>, n: nat)
    requires Inverse(e) && n < |e|
    ensures OwnsPosition(e, n, e[n].denseToSparse)
  {
  }

  /** Before the scan every live key survives. */
  lemma SurvivorsAtStart<T, P>(e: seq<IndexEntry<P>>, v: seq<T>, f: Element<T, P> -> bool)
    ensures Survivors(e, v, f, |v|) == KeyMap(e, v)
  {
  }

  /** Visiting position `n` leaves every key other than its owner as it was. */
  lemma SurvivorsElsewhere<T, P>(e: seq<IndexEntry<P>>, v: seq<T>, f: Element<T, P> -> bool, n: nat, k: nat, j: nat)
    requires OwnsPosition(e, n, k) && j != k
    ensures j in Survivors(e, v, f, n) <==> j in Survivors(e, v, f, n + 1)
    ensures j in Survivors(e, v, f, n) ==> Survivors(e, v, f, n)[j] == Survivors(e, v, f, n + 1)[j]
  {
  }

  /** The owner of position `n` survives the visit exactly when `f` rejects
      its element. */
  lemma SurvivorsAtKey<T, P>(e: seq<IndexEntry<P>>, v: seq<T>, f: Element<T, P> -> bool, n: nat, k: nat)
    requires OwnsPosition(e, n, k) && n < |v|
    ensures k in Survivors(e, v, f, n + 1) && Survivors(e, v, f, n + 1)[k] == v[n]
    ensures k in Survivors(e, v, f, n) <==> !f(ElementOfKey(e, v, k))
    ensures k in Survivors(e, v, f, n) ==> Survivors(e, v, f, n)[k] == v[n]
  {
  }

  /** Visiting position `n`: its owner drops out exactly when `f` accepts its
      element; every other key is unaffected. */
  lemma SurvivorsStep<T, P>(e: seq<IndexEntry<P>>, v: seq<T>, f: Element<T, P> -> bool, n: nat, k: nat)
    requires OwnsPosition(e, n, k) && n < |v|
    ensures Survivors(e, v, f, n)
         == if f(ElementOfKey(e, v, k)) then Survivors(e, v, f, n + 1) - {k} else Survivors(e, v, f, n + 1)
  {
    var s, s1 := Survivors(e, v, f, n), Survivors(e, v, f, n + 1);
    var t := if f(ElementOfKey(e, v, k)) then s1 - {k} else s1;
    forall j: nat
      ensures (j in s <==> j in t) && (j in s ==> s[j] == t[j])
    {
      if j == k {
        SurvivorsAtKey(e, v, f, n, k);
      } else {
        SurvivorsElsewhere(e, v, f, n, k, j);
      }
    }
  }

  /** Visiting position `n` takes its value out of the unvisited prefix and
      puts it among the kept values, unless `f` accepts the element, which is
      then counted. */
  lemma ScanStep<T, P>(v: seq<T>, els: seq<Element<T, P>>, f: Element<T, P> -> bool, n: nat)
    requires |els| == |v| && n < |v| && els[n].value == v[n]
    ensures multiset(v[..n + 1]) + multiset(KeptValues(els, f, n + 1))
         == multiset(v[..n]) + multiset(KeptValues(els, f, n))
            + if f(els[n]) then multiset{v[n]} else multiset{}
    ensures Matches(els, f, n) == Matches(els, f, n + 1) + if f(els[n]) then 1 else 0
  {
    assert v[..n + 1] == v[..n] + [v[n]];
  }

  lemma DataAgreesTrans<P>(a: seq<IndexEntry<P>>, b: seq<IndexEntry<P>>, c: seq<IndexEntry<P>>)
    requires |a| == |b| == |c| && DataAgrees(a, b) && DataAgrees(b, c)
    ensures DataAgrees(a, c)
  {
  }

  /** Swap-and-pop removes exactly one copy of the erased value. */
  lemma SwapPopMultiset<T>(v: seq<T>, i: nat)
    requires i < |v|
    ensures multiset(v[i := v[|v| - 1]][..|v| - 1]) == multiset(v) - multiset{v[i]}
  {
    var last := |v| - 1;
    if i < last {
      calc {
        multiset(v);
        { assert v == v[..i] + [v[i]] + v[i + 1..last] + [v[last]]; }
        multiset(v[..i]) + multiset{v[i]} + multiset(v[i + 1..last]) + multiset{v[last]};
      }
      assert v[i := v[last]][..last] == v[..i] + [v[last]] + v[i + 1..last];
    } else {
      assert v == v[..last] + [v[last]];
    }
  }

  /** The element a scan sees at position `n` is the one that was there before
      the scan, as long as the prefix up to `n` and the persistent data are
      untouched. */
  lemma SameElement<T, P>(e0: seq<IndexEntry<P>>, v0: seq<T>, e: seq<IndexEntry<P>>, v: seq<T>, n: nat)
    requires Inverse(e0) && Inverse(e) && |e| == |e0| && |v0| <= |e0| && |v| <= |e|
    requires n < |v| && n < |v0| && v[n] == v0[n] && e[n].denseToSparse == e0[n].denseToSparse
    requires DataAgrees(e0, e)
    ensures ElementOf(e, v, n) == ElementOf(e0, v0, n) == ElementOfKey(e0, v0, e0[n].denseToSparse)
  {
  }

  // ---------------------------------------------------------------------------
  // Iterator erase.

  /** `ValueView::erase(iter)`: erases the element at the iterator's position
      and hands back an iterator at the same position, which now holds the
      former last value (or is the end). An iterator at or past the end makes
      the index erase throw, and the map is left as it was. */
  method ValueViewErase<T, P>(m: IndexMap<T, P>, n: nat) returns (r: Result<nat>)
    requires m.Valid()
    modifies m
    ensures m.Valid()
    ensures n >= old(|m.values|) ==>
      r == Err(InvalidIndex) && m.indices == old(m.indices) && m.values == old(m.values)
    ensures n < old(|m.values|) ==>
      && r == Ok(n) && |m.values| == old(|m.values|) - 1
      && (n < |m.values| ==> m.values[n] == old(m.values)[old(|m.values|) - 1])
      && m.Lookup() == old(m.Lookup()) - {old(m.indices)[n].denseToSparse}
  {
    var o := m.EraseIndex(n);
    if o.Fail? {
      return Err(o.error);
    }
    r := Ok(n);
  }

  /** `KeyValueView::erase(iter)`: the same through the key-value view; the
      element at the returned position is the former last element, with its
      key and value. */
  method KeyValueViewErase<T, P>(m: IndexMap<T, P>, n: nat) returns (r: nat)
    requires m.Valid() && n < m.Size()
    modifies m
    ensures m.Valid() && r == n && |m.values| == old(|m.values|) - 1
    ensures r < m.Size() ==>
      m.KeyValueAt(r).key == old(m.indices)[old(|m.values|) - 1].denseToSparse
      && m.KeyValueAt(r).value == old(m.values)[old(|m.values|) - 1]
    ensures m.Lookup() == old(m.Lookup()) - {old(m.indices)[n].denseToSparse}
  {
    var _ := m.EraseIndex(n);
    r := n;
  }

  // ---------------------------------------------------------------------------
  // Free `erase_if` / `erase`.

  /** What `erase(n)` does to the table `e` and values `v`, as far as a
      backwards scan is concerned: the positions below `n` keep their values
      and keys, the persistent data stays, exactly one copy of the erased value
      leaves the storage and exactly the key at `n` leaves the key map. */
  ghost predicate ErasedAt<T, P>(e: seq<IndexEntry<P>>, v: seq<T>, n: nat, e': seq<IndexEntry<P>>, v': seq<T>)
  {
    && n < |v| <= |e| && |e'| == |e| && |v'| == |v| - 1
    && (forall j :: 0 <= j < n ==> v'[j] == v[j])
    && (forall j :: 0 <= j < n ==> e'[j].denseToSparse == e[j].denseToSparse)
    && DataAgrees(e, e')
    && multiset(v') == multiset(v) - multiset{v[n]}
    && KeyMap(e', v') == KeyMap(e, v) - {e[n].denseToSparse}
  }

  /** The scan's state once positions `n ..` have been visited, starting
      from table `e0` and values `v0` whose elements are `els`: the unvisited
      prefix is untouched, the storage holds that prefix and the kept values,
      the key map holds the survivors and `count` the accepted elements. */
  ghost predicate Scanned<T, P>(e0: seq<IndexEntry<P>>, v0: seq<T>, els: seq<Element<T, P>>, f: Element<T, P> -> bool,
                                n: nat, e: seq<IndexEntry<P>>, v: seq<T>, count: nat)
  {
    && |els| == |v0| <= |e0| == |e| && n <= |v0| && n <= |v|
    && (forall j :: 0 <= j < n ==> v[j] == v0[j])
    && (forall j :: 0 <= j < n ==> e[j].denseToSparse == e0[j].denseToSparse)
    && DataAgrees(e0, e)
    && multiset(v) == multiset(v0[..n]) + multiset(KeptValues(els, f, n))
    && KeyMap(e, v) == Survivors(e0, v0, f, n)
    && count == Matches(els, f, n)
  }

  /** Before the scan nothing is visited. */
  lemma ScanStarts<T, P>(e0: seq<IndexEntry<P>>, v0: seq<T>, f: Element<T, P> -> bool)
    requires Inverse(e0) && |v0| <= |e0|
    ensures Scanned(e0, v0, Elements(e0, v0), f, |v0|, e0, v0, 0)
  {
    var els := Elements(e0, v0);
    assert v0[..|v0|] == v0 && KeptValues(els, f, |v0|) == [] && Matches(els, f, |v0|) == 0;
    SurvivorsAtStart(e0, v0, f);
  }

  /** The element the scan sees at the next position is the original one. */
  lemma ScanSees<T, P>(e0: seq<IndexEntry<P>>, v0: seq<T>, f: Element<T, P> -> bool, n: nat, e: seq<IndexEntry<P>>, v: seq<T>, count: nat)
    requires Inverse(e0) && |v0| <= |e0| && Inverse(e) && |v| <= |e| && n < |v0|
    requires Scanned(e0, v0, Elements(e0, v0), f, n + 1, e, v, count)
    ensures ElementOf(e, v, n) == Elements(e0, v0)[n]
  {
    SameElement(e0, v0, e, v, n);
  }

  /** Visiting position `n` — erasing it when `f` accepts its element, leaving
      it otherwise — moves the scan from `n + 1` to `n`. */
  lemma ScanVisits<T, P>(e0: seq<IndexEntry<P>>, v0: seq<T>, f: Element<T, P> -> bool, n: nat,
                         e: seq<IndexEntry<P>>, v: seq<T>, count: nat, e': seq<IndexEntry<P>>, v': seq<T>, count': nat)
    requires Inverse(e0) && |v0| <= |e0| && n < |v0|
    requires Scanned(e0, v0, Elements(e0, v0), f, n + 1, e, v, count)
    requires f(Elements(e0, v0)[n]) ==> ErasedAt(e, v, n, e', v') && count' == count + 1
    requires !f(Elements(e0, v0)[n]) ==> e' == e && v' == v && count' == count
    ensures Scanned(e0, v0, Elements(e0, v0), f, n, e', v', count')
  {
    var els := Elements(e0, v0);
    var k := e0[n].denseToSparse;
    assert els[n] == ElementOfKey(e0, v0, k);
    PositionOwner(e0, n);
    SurvivorsStep(e0, v0, f, n, k);
    ScanStep(v0, els, f, n);
    if f(els[n]) {
      assert v[n] == v0[n] && e[n].denseToSparse == k;
      DataAgreesTrans(e0, e, e');
    }
  }

  /** The `erase(n)` an `erase_if` scan makes at the position it visits. */
  method EraseVisited<T, P>(m: IndexMap<T, P>, n: nat)
    requires m.Valid() && n < m.Size()
    modifies m
    ensures m.Valid() && ErasedAt(old(m.indices), old(m.values), n, m.indices, m.values)
  {
    ghost var w := m.values;
    var _ := m.EraseIndex(n);
    SwapPopMultiset(w, n);
  }

  /** `erase_if(m.keys_and_values(), f)`: visits every position once, from the
      last down to the first, and erases the element there when `f` accepts it.
      Swap-and-pop only ever pulls in an element from a visited position, so
      the elements `f` is asked about are exactly the original ones. The
      surviving keys are those whose original element `f` rejects, each with
      its value, and the count is the number of accepted elements. */
  method EraseIf<T, P>(m: IndexMap<T, P>, f: Element<T, P> -> bool) returns (count: nat)
    requires m.Valid()
    modifies m
    ensures m.Valid() && |m.indices| == old(|m.indices|)
    ensures m.Lookup() == Survivors(old(m.indices), old(m.values), f, 0)
    ensures multiset(m.values) == multiset(KeptValues(Elements(old(m.indices), old(m.values)), f, 0))
    ensures count == Matches(Elements(old(m.indices), old(m.values)), f, 0)
    ensures count == old(|m.values|) - |m.values|
  {
    ghost var e0, v0 := m.indices, m.values;
    ScanStarts(e0, v0, f);
    var n: nat := m.Size();
    count := 0;
    while n > 0
      invariant m.Valid() && n <= |v0|
      invariant Scanned(e0, v0, Elements(e0, v0), f, n, m.indices, m.values, count)
    {
      n := n - 1;
      ghost var e, v, c := m.indices, m.values, count;
      ScanSees(e0, v0, f, n, e, v, c);
      var x := m.KeyValueAt(n);
      if f(x) {
        EraseVisited(m, n);
        count := count + 1;
      }
      ScanVisits(e0, v0, f, n, e, v, c, m.indices, m.values, count);
    }
    assert v0[..0] == [];
  }

  /** Keep the elements of `s` that `f` rejects, in order. */
  function Keep<T>(s: seq<T>, f: T -> bool): (r: seq<T>)
    ensures forall x :: x in r ==> !f(x)
    ensures |r| <= |s|
  {
    if |s| == 0 then []
    else (if f(s[0]) then [] else [s[0]]) + Keep(s[1..], f)
  }

  /** The entries of `m` whose value `f` rejects. */
  function KeepWhere<T>(m: map<nat, T>, f: T -> bool): (r: map<nat, T>)
    ensures forall k :: k in r <==> k in m && !f(m[k])
    ensures forall k :: k in r ==> r[k] == m[k]
  {
    map k | k in m && !f(m[k]) :: m[k]
  }

  /** A predicate that reads only the value keeps the same values as
      filtering the values alone. */
  lemma {:induction false} KeptByValue<T, P>(els: seq<Element<T, P>>, v: seq<T>, f: T -> bool, g: Element<T, P> -> bool, lo: nat)
    requires |els| == |v| && lo <= |v|
    requires forall i :: 0 <= i < |v| ==> els[i].value == v[i]
    requires forall x :: g(x) == f(x.value)
    ensures KeptValues(els, g, lo) == Keep(v[lo..], f)
    decreases |v| - lo
  {
    if lo < |v| {
      KeptByValue(els, v, f, g, lo + 1);
      assert v[lo..][1..] == v[lo + 1..];
    }
  }

  /** ... and keeps the same keys as filtering the key map by value. */
  lemma SurvivorsByValue<T, P>(e: seq<IndexEntry<P>>, v: seq<T>, f: T -> bool, g: Element<T, P> -> bool)
    requires forall x :: g(x) == f(x.value)
    ensures Survivors(e, v, g, 0) == KeepWhere(KeyMap(e, v), f)
  {
    var s, km := Survivors(e, v, g, 0), KeyMap(e, v);
    var kw := KeepWhere(km, f);
    forall k: nat
      ensures (k in s <==> k in kw) && (k in s ==> s[k] == kw[k])
    {
      if k < |e| && e[k].sparseToDense < |v| {
        assert k in km && km[k] == v[e[k].sparseToDense];
      }
    }
  }

  /** `erase_if(m.values(), f)`: the same scan with a predicate on the value
      alone. Afterwards no value satisfies `f`, the values are the original
      ones `f` rejects, and every surviving key keeps its value. */
  method EraseIfValues<T, P>(m: IndexMap<T, P>, f: T -> bool) returns (count: nat)
    requires m.Valid()
    modifies m
    ensures m.Valid() && |m.indices| == old(|m.indices|)
    ensures forall j :: 0 <= j < |m.values| ==> !f(m.values[j])
    ensures multiset(m.values) == multiset(Keep(old(m.values), f))
    ensures m.Lookup() == KeepWhere(old(m.Lookup()), f)
    ensures count == old(|m.values|) - |m.values|
  {
    ghost var e0, v0 := m.indices, m.values;
    var g := (x: Element<T, P>) => f(x.value);
    count := EraseIf(m, g);
    KeptByValue(Elements(e0, v0), v0, f, g, 0);
    assert v0[0..] == v0;
    SurvivorsByValue(e0, v0, f, g);
    forall j | 0 <= j < |m.values|
      ensures !f(m.values[j])
    {
      assert m.values[j] in multiset(m.values);
    }
  }

  /** Filtering out one value keeps every other value with its multiplicity
      and drops every copy of that one. */
  lemma {:induction false} KeepAllBut<T>(s: seq<T>, y: T, f: T -> bool)
    requires forall x :: f(x) == (x == y)
    ensures multiset(Keep(s, f)) == multiset(s)[y := 0]
  {
    if |s| > 0 {
      var rest := s[1..];
      KeepAllBut(rest, y, f);
      assert s == [s[0]] + rest;
      assert multiset(s) == multiset{s[0]} + multiset(rest);
      if s[0] == y {
        assert Keep(s, f) == Keep(rest, f);
        assert multiset(s)[y := 0] == multiset(rest)[y := 0];
      } else {
        assert Keep(s, f) == [s[0]] + Keep(rest, f);
        assert multiset(s)[y := 0] == multiset{s[0]} + multiset(rest)[y := 0];
      }
    }
  }

  /** `erase(m.values(), y)`: erases every element equal to `y` and returns
      how many there were. */
  method EraseValue<T(==), P>(m: IndexMap<T, P>, y: T) returns (count: nat)
    requires m.Valid()
    modifies m
    ensures m.Valid() && |m.indices| == old(|m.indices|)
    ensures y !in m.values && multiset(m.values) == multiset(old(m.values))[y := 0]
    ensures count == multiset(old(m.values))[y] && count == old(|m.values|) - |m.values|
    ensures m.Lookup() == WithoutValue(old(m.Lookup()), y)
  {
    ghost var v0, l0 := m.values, m.Lookup();
    var f := (x: T) => x == y;
    count := EraseIfValues(m, f);
    KeepAllBut(v0, y, f);
    assert |multiset(m.values)| == |multiset(v0)[y := 0]|;
    MultisetDropSize(multiset(v0), y);
    KeepWhereIsWithout(l0, y, f);
  }

  /** Filtering out what equals `y` is removing the entries holding `y`. */
  lemma KeepWhereIsWithout<T>(m: map<nat, T>, y: T, f: T -> bool)
    requires forall x :: f(x) == (x == y)
    ensures KeepWhere(m, f) == WithoutValue(m, y)
  {
    var a, b := KeepWhere(m, f), WithoutValue(m, y);
    assert a.Keys == b.Keys;
  }

  /** The entries of `m` whose value is not `y`. */
  function WithoutValue<T(==)>(m: map<nat, T>, y: T): (r: map<nat, T>)
    ensures forall k :: k in r <==> k in m && m[k] != y
    ensures forall k :: k in r ==> r[k] == m[k]
  {
    map k | k in m && m[k] != y :: m[k]
  }

  /** Dropping every copy of `y` shrinks a multiset by the number of copies. */
  lemma MultisetDropSize<T>(s: multiset<T>, y: T)
    ensures |s[y := 0]| == |s| - s[y]
  {
    var d := multiset{}[y := s[y]];
    assert s == s[y := 0] + d;
  }
}
