/** The value storage of an index map whose element type is `void`: a
    container that has a size but no elements, kept as a single `std::size_t`
    counter. */
module SizeOnly {
  import opened KeyWidths

  /** Number of distinct `std::size_t` values; counter arithmetic wraps at it. */
  const SizeModulus: nat := 0x1_0000_0000_0000_0000

  /** `counter++` on a `std::size_t`: one more, except that the largest value
      wraps to zero. */
  function Inc(c: nat): (r: nat)
    requires c < SizeModulus
    ensures r < SizeModulus
    ensures c + 1 < SizeModulus ==> r == c + 1
    ensures c + 1 == SizeModulus ==> r == 0
  {
    (c + 1) % SizeModulus
  }

  /** `counter--` on a `std::size_t`: one less, except that zero wraps to the
      largest value. */
  function Dec(c: nat): (r: nat)
    requires c < SizeModulus
    ensures r < SizeModulus
    ensures c > 0 ==> r == c - 1
    ensures c == 0 ==> r == SizeModulus - 1
  {
    (c + SizeModulus - 1) % SizeModulus
  }

  /** Increment and decrement undo each other, wrap-around included. */
  lemma IncDecRoundTrip(c: nat)
    requires c < SizeModulus
    ensures Dec(Inc(c)) == c && Inc(Dec(c)) == c
  {
  }

  /** The index map checks `size() < max_size()` before every insertion, and
      `max_size()` is below the modulus, so an insertion never wraps the
      counter. */
  lemma InsertionNeverWraps(w: KeyWidth, c: nat)
    requires c < MaxSize(w)
    ensures c < SizeModulus && Inc(c) == c + 1
  {
  }

  /** A counter stands for a sequence of `()` values of that length: pushing
      and popping a unit move the counter exactly as they move the length. */
  lemma CounterTracksUnits(s: seq<()>)
    requires |s| + 1 < SizeModulus
    ensures Inc(|s|) == |s + [()]| && Dec(|s + [()]|) == |s|
  {
  }

  class SizeOnlyContainer {
    var counter: nat

    ghost predicate Valid()
      reads this
    {
      counter < SizeModulus
    }

    constructor ()
      ensures Valid() && counter == 0
    {
      counter := 0;
    }

    function Size(): nat
      reads this
    {
      counter
    }

    function Empty(): (b: bool)
      reads this
      ensures b <==> Size() == 0
    {
      Size() == 0
    }

    /** `emplace_back()`: with no arguments only; the counter grows by one,
        wrapping like the `std::size_t` it is. */
    method EmplaceBack()
      requires Valid()
      modifies this
      ensures Valid() && counter == Inc(old(counter))
    {
      counter := (counter + 1) % SizeModulus;
    }

    /** `pop_back()`: the counter shrinks by one; on an empty container it
        wraps to the largest `std::size_t`, as the unchecked decrement does. */
    method PopBack()
      requires Valid()
      modifies this
      ensures Valid() && counter == Dec(old(counter))
    {
      counter := (counter + SizeModulus - 1) % SizeModulus;
    }

    method Clear()
      modifies this
      ensures Valid() && counter == 0
    {
      counter := 0;
    }
  }
}
